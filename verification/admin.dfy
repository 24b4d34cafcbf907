/** The admin surface of the resource service: which authentication contexts
    exist (built-in defaults, the session cache, or the directory's list),
    mapping an operation to a context in the AuthContext table, and seeding
    the tenant's contexts remotely and locally.

    The session is an optional cached dictionary, the directory (Microsoft
    Graph) is the list it returns, and the database is the sequence of
    AuthContext rows. */
module Admin {
  import opened Wrappers
  import opened Models
  import opened Sequences
  import AuthCheck

  /** An authentication context class reference as the directory lists it. */
  datatype AcrRef = AcrRef(id: string, displayName: string)

  /** An id to display-name dictionary, in enumeration order. */
  type Dict = seq<(string, string)>

  predicate DistinctKeys(d: Dict) {
    forall i, j :: 0 <= i < j < |d| ==> d[i].0 != d[j].0
  }

  /** The built-in contexts, used when no other source has any. */
  const Defaults: Dict := [("C1", "Regular privilege"), ("C2", "Medium-high privilege"), ("C3", "High privilege")]

  /** `DuplicateId` is `Dictionary.Add` rejecting a key already present;
      `DuplicatePrimaryKey` an insert whose (TenantId, Operation) exists;
      `NoRowUpdated` an update whose (TenantId, Operation) does not exist. */
  datatype AdminError = DuplicateId(id: string) | DuplicatePrimaryKey | NoRowUpdated

  /** `Dictionary.Add`: rejects a key already present; otherwise the key
      now maps to the value, the earlier entries keep their order, and the
      keys stay distinct. */
  function DictAdd(d: Dict, k: string, v: string): (r: Result<Dict, AdminError>)
    ensures r.Success? <==> forall i :: 0 <= i < |d| ==> d[i].0 != k
    ensures r.Failure? ==> r.error == DuplicateId(k)
    ensures r.Success? ==> |r.value| == |d| + 1 && r.value[..|d|] == d && r.value[|d|] == (k, v)
    ensures r.Success? && DistinctKeys(d) ==> DistinctKeys(r.value)
  {
    if exists i :: 0 <= i < |d| && d[i].0 == k then Failure(DuplicateId(k)) else Success(d + [(k, v)])
  }

  /** A cleared dictionary filled from the directory's list, one `Add` per
      listed context, in list order. */
  function FromDirectory(remote: seq<AcrRef>): (r: Result<Dict, AdminError>)
    ensures r.Success? <==> forall i, j :: 0 <= i < j < |remote| ==> remote[i].id != remote[j].id
    ensures r.Success? ==>
      && |r.value| == |remote|
      && forall i :: 0 <= i < |remote| ==> r.value[i] == (remote[i].id, remote[i].displayName)
    ensures r.Success? ==> DistinctKeys(r.value)
  {
    if |remote| == 0 then Success([])
    else
      var last := remote[|remote| - 1];
      match FromDirectory(remote[..|remote| - 1])
      case Failure(e) => Failure(e)
      case Success(d) => DictAdd(d, last.id, last.displayName)
  }

  /** The dictionary in use and the session cache after it was chosen;
      `consultedDirectory` records whether the directory was asked. */
  datatype Lookup = Lookup(dict: Dict, cache: Option<Dict>, consultedDirectory: bool)

  /** `getAuthenticationContextValues`. */
  function AuthenticationContextValues(cache: Option<Dict>, remote: seq<AcrRef>): (r: Result<Lookup, AdminError>)
    // a cached dictionary is returned as it is, and the directory is not asked
    ensures cache.Some? ==> r.Success? && r.value.dict == cache.value && r.value.cache == cache && !r.value.consultedDirectory
    // nothing cached, nothing listed: the three defaults, nothing cached
    ensures cache.None? && |remote| == 0 ==> r.Success? && r.value.dict == Defaults && r.value.cache.None?
    // nothing cached, some listed: exactly the listed pairs, cached; duplicates fail
    ensures cache.None? && |remote| > 0 ==>
      && (r.Success? <==> forall i, j :: 0 <= i < j < |remote| ==> remote[i].id != remote[j].id)
      && (r.Success? ==>
           && |r.value.dict| == |remote|
           && (forall i :: 0 <= i < |remote| ==> r.value.dict[i] == (remote[i].id, remote[i].displayName))
           && r.value.cache == Some(r.value.dict))
    ensures r.Success? ==> (r.value.consultedDirectory <==> cache.None?)
    // whatever the directory supplies, the dictionary has distinct keys
    ensures cache.None? && r.Success? ==> DistinctKeys(r.value.dict)
  {
    if cache.Some? then Success(Lookup(cache.value, cache, false))
    else if |remote| == 0 then Success(Lookup(Defaults, None, true))
    else
      match FromDirectory(remote)
      case Failure(e) => Failure(e)
      case Success(d) => Success(Lookup(d, Some(d), true))
  }

  /** A cached dictionary hides the directory: the result does not depend on it. */
  lemma CachedIgnoresDirectory(d: Dict, remote1: seq<AcrRef>, remote2: seq<AcrRef>)
    ensures AuthenticationContextValues(Some(d), remote1) == AuthenticationContextValues(Some(d), remote2)
  {
  }

  /** A drop-down entry of the admin page. */
  datatype SelectItem = SelectItem(text: string, value: Option<string>)

  /** The operations offered for mapping. */
  const Operations := [SelectItem("Get", None), SelectItem("Post", None), SelectItem("Delete", None)]

  datatype IndexView = IndexView(tenantId: Option<string>, authContextValues: seq<SelectItem>,
                                 operations: seq<SelectItem>, cache: Option<Dict>)

  /** `Index`: one entry per dictionary entry (text the display name, value
      the id), in dictionary order, plus the fixed operations. */
  function Index(tenantId: Option<string>, cache: Option<Dict>, remote: seq<AcrRef>): (r: Result<IndexView, AdminError>)
    ensures AuthenticationContextValues(cache, remote).Failure? <==> r.Failure?
    ensures r.Success? ==>
      var lookup := AuthenticationContextValues(cache, remote).value;
      && r.value.tenantId == tenantId
      && r.value.cache == lookup.cache
      && r.value.operations == Operations
      && |r.value.authContextValues| == |lookup.dict|
      && forall i :: 0 <= i < |lookup.dict| ==>
           r.value.authContextValues[i] == SelectItem(lookup.dict[i].1, Some(lookup.dict[i].0))
  {
    match AuthenticationContextValues(cache, remote)
    case Failure(e) => Failure(e)
    case Success(lookup) =>
      var d := lookup.dict;
      var items := if |d| > 0 then seq(|d|, i requires 0 <= i < |d| => SelectItem(d[i].1, Some(d[i].0))) else [];
      Success(IndexView(tenantId, items, Operations, lookup.cache))
  }

  /** The id of the first entry whose display name is `name`; `None` (the
      key of a default `KeyValuePair`) when no entry has it. */
  function IdForDisplayName(d: Dict, name: Option<string>): (r: Option<string>)
    ensures r.None? <==> forall i :: 0 <= i < |d| ==> Some(d[i].1) != name
    ensures r.Some? ==>
      exists i :: && 0 <= i < |d| && d[i] == (r.value, name.value)
                  && forall j :: 0 <= j < i ==> Some(d[j].1) != name
  {
    match FirstIndex(d, (e: (string, string)) => Some(e.1) == name)
    case None => None
    case Some(i) => Some(d[i].0)
  }

  /** The page posts back an offered item's display name, and
      `UpdateAuthContextDB` resolves it with `IdForDisplayName`: an offered
      name always resolves, and it resolves to the item's own id unless an
      earlier entry has the same display name. */
  lemma IndexItemResolves(tenantId: Option<string>, cache: Option<Dict>, remote: seq<AcrRef>, k: nat)
    requires Index(tenantId, cache, remote).Success?
    requires k < |Index(tenantId, cache, remote).value.authContextValues|
    ensures var d := AuthenticationContextValues(cache, remote).value.dict;
      var item := Index(tenantId, cache, remote).value.authContextValues[k];
      && IdForDisplayName(d, Some(item.text)).Some?
      && ((forall j :: 0 <= j < k ==> d[j].1 != d[k].1) ==> IdForDisplayName(d, Some(item.text)) == item.value)
  {
    var d := AuthenticationContextValues(cache, remote).value.dict;
    var item := Index(tenantId, cache, remote).value.authContextValues[k];
    assert item == SelectItem(d[k].1, Some(d[k].0));
    var r := IdForDisplayName(d, Some(item.text));
    assert Some(d[k].1) == Some(item.text);
    if forall j :: 0 <= j < k ==> d[j].1 != d[k].1 {
      var i :| && 0 <= i < |d| && d[i] == (r.value, item.text)
               && forall j :: 0 <= j < i ==> Some(d[j].1) != Some(item.text);
      assert i == k;
    }
  }

  /** Replaces every row that has the key of `row` by `row`. */
  function ReplaceByKey(table: seq<AuthContext>, row: AuthContext): (r: seq<AuthContext>)
    ensures |r| == |table|
    ensures forall i :: 0 <= i < |table| ==> r[i] == if Key(table[i]) == Key(row) then row else table[i]
  {
    seq(|table|, i requires 0 <= i < |table| => if Key(table[i]) == Key(row) then row else table[i])
  }

  predicate HasKey(table: seq<AuthContext>, k: (Option<string>, Option<string>)) {
    exists i :: 0 <= i < |table| && Key(table[i]) == k
  }

  datatype UpdateOutcome = UpdateOutcome(table: seq<AuthContext>, cache: Option<Dict>, inserted: bool)

  /** `UpdateAuthContextDB`: resolve the submitted display name to an id,
      then insert the row when no row has the same (AuthContextId, Operation)
      and update by primary key otherwise. The test ignores TenantId although
      the key is (TenantId, Operation). */
  function UpdateAuthContextDB(cache: Option<Dict>, remote: seq<AcrRef>, submitted: AuthContext,
                               table: seq<AuthContext>): (r: Result<UpdateOutcome, AdminError>)
    ensures AuthenticationContextValues(cache, remote).Failure? ==> r.Failure?
    ensures AuthenticationContextValues(cache, remote).Success? ==>
      var lookup := AuthenticationContextValues(cache, remote).value;
      var row := submitted.(authContextId := IdForDisplayName(lookup.dict, submitted.displayName));
      var matched := exists i :: 0 <= i < |table| && table[i].authContextId == row.authContextId
                                                && table[i].operation == row.operation;
      // insert branch
      && (!matched && !HasKey(table, Key(row)) ==> r == Success(UpdateOutcome(table + [row], lookup.cache, true)))
      && (!matched && HasKey(table, Key(row)) ==> r == Failure(DuplicatePrimaryKey))
      // update branch
      && (matched && HasKey(table, Key(row)) ==> r == Success(UpdateOutcome(ReplaceByKey(table, row), lookup.cache, false)))
      && (matched && !HasKey(table, Key(row)) ==> r == Failure(NoRowUpdated))
    ensures r.Success? && KeyUnique(table) ==> KeyUnique(r.value.table)
  {
    match AuthenticationContextValues(cache, remote)
    case Failure(e) => Failure(e)
    case Success(lookup) =>
      var row := submitted.(authContextId := IdForDisplayName(lookup.dict, submitted.displayName));
      var sameIdAndOperation := (x: AuthContext) => x.authContextId == row.authContextId && x.operation == row.operation;
      if Count(table, sameIdAndOperation) == 0 then
        if HasKey(table, Key(row)) then Failure(DuplicatePrimaryKey)
        else Success(UpdateOutcome(table + [row], lookup.cache, true))
      else
        if HasKey(table, Key(row)) then Success(UpdateOutcome(ReplaceByKey(table, row), lookup.cache, false))
        else Failure(NoRowUpdated)
  }

  /** Re-mapping an operation to another context fails: the new id has no
      row with that operation, so the insert branch runs and collides with
      the operation's existing key. */
  lemma RemapCollides(tenant: string, operation: string)
    ensures var table := [AuthContext(Some(tenant), Some("C1"), Some("Regular privilege"), Some(operation))];
      var submitted := AuthContext(Some(tenant), None, Some("Medium-high privilege"), Some(operation));
      UpdateAuthContextDB(None, [], submitted, table) == Failure(DuplicatePrimaryKey)
  {
    var table := [AuthContext(Some(tenant), Some("C1"), Some("Regular privilege"), Some(operation))];
    var submitted := AuthContext(Some(tenant), None, Some("Medium-high privilege"), Some(operation));
    assert IdForDisplayName(Defaults, submitted.displayName) == Some("C2") by {
      assert Defaults[1] == ("C2", "Medium-high privilege");
      assert Some(Defaults[0].1) != submitted.displayName;
    }
    assert HasKey(table, (Some(tenant), Some(operation))) by {
      assert Key(table[0]) == (Some(tenant), Some(operation));
    }
  }

  /** The intended rule: insert or update by primary key. */
  function UpsertByKey(cache: Option<Dict>, remote: seq<AcrRef>, submitted: AuthContext,
                       table: seq<AuthContext>): (r: Result<UpdateOutcome, AdminError>)
    ensures AuthenticationContextValues(cache, remote).Failure? <==> r.Failure?
    ensures r.Success? ==>
      var lookup := AuthenticationContextValues(cache, remote).value;
      var row := submitted.(authContextId := IdForDisplayName(lookup.dict, submitted.displayName));
      && (r.value.inserted <==> !HasKey(table, Key(row)))
      && (r.value.inserted ==> r.value.table == table + [row])
      && (!r.value.inserted ==> r.value.table == ReplaceByKey(table, row))
    ensures r.Success? && KeyUnique(table) ==> KeyUnique(r.value.table)
  {
    match AuthenticationContextValues(cache, remote)
    case Failure(e) => Failure(e)
    case Success(lookup) =>
      var row := submitted.(authContextId := IdForDisplayName(lookup.dict, submitted.displayName));
      if HasKey(table, Key(row)) then Success(UpdateOutcome(ReplaceByKey(table, row), lookup.cache, false))
      else Success(UpdateOutcome(table + [row], lookup.cache, true))
  }

  /** After the intended upsert the check demands exactly the submitted
      context for that tenant and operation. */
  lemma UpsertThenCheckRequires(cache: Option<Dict>, remote: seq<AcrRef>, submitted: AuthContext,
                                table: seq<AuthContext>, httpMethod: string)
    requires KeyUnique(table)
    requires submitted.operation == Some(httpMethod)
    requires UpsertByKey(cache, remote, submitted, table).Success?
    ensures var lookup := AuthenticationContextValues(cache, remote).value;
      AuthCheck.SavedAuthContextId(UpsertByKey(cache, remote, submitted, table).value.table, submitted.tenantId, httpMethod)
        == IdForDisplayName(lookup.dict, submitted.displayName)
  {
    var lookup := AuthenticationContextValues(cache, remote).value;
    var row := submitted.(authContextId := IdForDisplayName(lookup.dict, submitted.displayName));
    var t := UpsertByKey(cache, remote, submitted, table).value.table;
    if HasKey(table, Key(row)) {
      var k :| 0 <= k < |table| && Key(table[k]) == Key(row);
      assert t[k] == row;
      AuthCheck.SavedAuthContextIdKeyed(t, submitted.tenantId, httpMethod, k);
    } else {
      assert t[|table|] == row;
      AuthCheck.SavedAuthContextIdKeyed(t, submitted.tenantId, httpMethod, |table|);
    }
  }

  /** `AddInDB`: the local row seeded for a dictionary entry, for the tenant
      with the entry's id and display name; the operation is left unset. */
  function SeedRow(tenantId: Option<string>, e: (string, string)): (r: AuthContext)
    ensures InTenant(tenantId, r) && r.operation.None?
    ensures r.authContextId == Some(e.0) && r.displayName == Some(e.1)
  {
    AuthContext(tenantId, Some(e.0), Some(e.1), None)
  }

  function SeedRows(tenantId: Option<string>, es: Dict): (rows: seq<AuthContext>)
    ensures |rows| == |es|
    ensures forall k :: 0 <= k < |es| ==> rows[k] == SeedRow(tenantId, es[k])
  {
    seq(|es|, k requires 0 <= k < |es| => SeedRow(tenantId, es[k]))
  }

  predicate InTenant(tenantId: Option<string>, x: AuthContext) {
    x.tenantId == tenantId
  }

  predicate TenantRowsWithoutOperation(tenantId: Option<string>, rows: seq<AuthContext>) {
    forall k :: 0 <= k < |rows| ==> InTenant(tenantId, rows[k]) && rows[k].operation.None?
  }

  /** How many rows the tenant has (re-counted before every entry, since the
      query is deferred). */
  function TenantRowCount(table: seq<AuthContext>, tenantId: Option<string>): nat {
    Count(table, (x: AuthContext) => InTenant(tenantId, x))
  }

  /** The seeding loop of `CreateAuthContextViaGraph` from entry `i` on: a
      row is added for an entry only while the tenant has fewer rows than
      the dictionary has entries. */
  function SeedFrom(d: Dict, i: nat, tenantId: Option<string>, table: seq<AuthContext>): (r: seq<AuthContext>)
    requires i <= |d|
    // at most one row per remaining entry
    ensures |table| <= |r| <= |table| + |d| - i
    decreases |d| - i
  {
    if i == |d| then table
    else
      var next := if TenantRowCount(table, tenantId) < |d| then table + [SeedRow(tenantId, d[i])] else table;
      SeedFrom(d, i + 1, tenantId, next)
  }

  function Min(a: int, b: int): int {
    if a <= b then a else b
  }

  function Gap(d: Dict, i: nat, tenantId: Option<string>, table: seq<AuthContext>): nat
    requires i <= |d|
  {
    if TenantRowCount(table, tenantId) >= |d| then 0
    else Min(|d| - i, |d| - TenantRowCount(table, tenantId))
  }

  lemma TenantRowCountSnoc(table: seq<AuthContext>, tenantId: Option<string>, e: (string, string))
    ensures TenantRowCount(table + [SeedRow(tenantId, e)], tenantId) == TenantRowCount(table, tenantId) + 1
  {
    CountSnoc(table, SeedRow(tenantId, e), (x: AuthContext) => InTenant(tenantId, x));
  }

  lemma SeedRowsCons(tenantId: Option<string>, es: Dict)
    requires |es| > 0
    ensures SeedRows(tenantId, es) == [SeedRow(tenantId, es[0])] + SeedRows(tenantId, es[1..])
  {
  }

  /** Adding a seed row shrinks the gap by one. */
  lemma GapAddStep(d: Dict, i: nat, tenantId: Option<string>, table: seq<AuthContext>)
    requires i < |d| && TenantRowCount(table, tenantId) < |d|
    ensures var g := Gap(d, i, tenantId, table);
      && 1 <= g <= |d| - i
      && Gap(d, i + 1, tenantId, table + [SeedRow(tenantId, d[i])]) == g - 1
  {
    TenantRowCountSnoc(table, tenantId, d[i]);
  }

  lemma SeedAddUnfold(d: Dict, i: nat, tenantId: Option<string>, table: seq<AuthContext>)
    requires i < |d| && TenantRowCount(table, tenantId) < |d|
    ensures SeedFrom(d, i, tenantId, table) == SeedFrom(d, i + 1, tenantId, table + [SeedRow(tenantId, d[i])])
  {
  }

  lemma SeedRowsPrepend(tenantId: Option<string>, table: seq<AuthContext>, es: Dict)
    requires |es| > 0
    ensures table + SeedRows(tenantId, es) == (table + [SeedRow(tenantId, es[0])]) + SeedRows(tenantId, es[1..])
  {
    SeedRowsCons(tenantId, es);
  }

  /** One seeding step that adds a row, given the claim for the rest. */
  lemma SeedAddStep(d: Dict, i: nat, tenantId: Option<string>, table: seq<AuthContext>)
    requires i < |d| && TenantRowCount(table, tenantId) < |d|
    requires var next := table + [SeedRow(tenantId, d[i])];
      SeedFrom(d, i + 1, tenantId, next) == next + SeedRows(tenantId, d[i + 1..i + 1 + Gap(d, i + 1, tenantId, next)])
    ensures SeedFrom(d, i, tenantId, table) == table + SeedRows(tenantId, d[i..i + Gap(d, i, tenantId, table)])
  {
    GapAddStep(d, i, tenantId, table);
    SeedAddUnfold(d, i, tenantId, table);
    var g := Gap(d, i, tenantId, table);
    var es := d[i..i + g];
    SeedRowsPrepend(tenantId, table, es);
    assert es[0] == d[i] && es[1..] == d[i + 1..i + g];
  }

  /** One seeding step that adds nothing, given the claim for the rest. */
  lemma SeedSkipStep(d: Dict, i: nat, tenantId: Option<string>, table: seq<AuthContext>)
    requires i < |d| && TenantRowCount(table, tenantId) >= |d|
    requires SeedFrom(d, i + 1, tenantId, table) == table + SeedRows(tenantId, d[i + 1..i + 1 + Gap(d, i + 1, tenantId, table)])
    ensures SeedFrom(d, i, tenantId, table) == table + SeedRows(tenantId, d[i..i + Gap(d, i, tenantId, table)])
  {
    assert table + SeedRows(tenantId, d[i + 1..i + 1]) == table;
    assert table + SeedRows(tenantId, d[i..i]) == table;
  }

  /** The gate counts rows, not ids: from entry `i`, the entries seeded are
      the next ones, as many as the tenant's row count falls short of the
      dictionary size. */
  lemma {:induction false} SeedFromClosedForm(d: Dict, i: nat, tenantId: Option<string>, table: seq<AuthContext>)
    requires i <= |d|
    ensures SeedFrom(d, i, tenantId, table) == table + SeedRows(tenantId, d[i..i + Gap(d, i, tenantId, table)])
    decreases |d| - i
  {
    if i == |d| {
      assert table + SeedRows(tenantId, d[i..i]) == table;
    } else if TenantRowCount(table, tenantId) < |d| {
      SeedFromClosedForm(d, i + 1, tenantId, table + [SeedRow(tenantId, d[i])]);
      SeedAddStep(d, i, tenantId, table);
    } else {
      SeedFromClosedForm(d, i + 1, tenantId, table);
      SeedSkipStep(d, i, tenantId, table);
    }
  }

  /** The loop only appends: the table it leaves starts with the table it
      was given, and every row after that is a row of the tenant without an
      operation. */
  lemma SeedFromAppends(d: Dict, i: nat, tenantId: Option<string>, table: seq<AuthContext>)
    requires i <= |d|
    ensures var r := SeedFrom(d, i, tenantId, table);
      table <= r && TenantRowsWithoutOperation(tenantId, r[|table|..])
  {
    SeedFromClosedForm(d, i, tenantId, table);
    var r := SeedFrom(d, i, tenantId, table);
    assert r[|table|..] == SeedRows(tenantId, d[i..i + Gap(d, i, tenantId, table)]);
  }

  /** Seeding from the start adds rows for the first |d| - c entries, where c
      is the tenant's row count beforehand, and none when c >= |d|. */
  lemma SeedClosedForm(d: Dict, tenantId: Option<string>, table: seq<AuthContext>)
    ensures var c := TenantRowCount(table, tenantId);
      SeedFrom(d, 0, tenantId, table) == table + SeedRows(tenantId, d[..if c >= |d| then 0 else |d| - c])
  {
    SeedFromClosedForm(d, 0, tenantId, table);
  }

  lemma {:induction false} TenantRowCountSeedRows(table: seq<AuthContext>, tenantId: Option<string>, es: Dict)
    ensures TenantRowCount(table + SeedRows(tenantId, es), tenantId) == TenantRowCount(table, tenantId) + |es|
    decreases |es|
  {
    if |es| > 0 {
      var init := es[..|es| - 1];
      TenantRowCountSeedRows(table, tenantId, init);
      assert table + SeedRows(tenantId, es) == (table + SeedRows(tenantId, init)) + [SeedRow(tenantId, es[|es| - 1])];
      TenantRowCountSnoc(table + SeedRows(tenantId, init), tenantId, es[|es| - 1]);
    } else {
      assert table + SeedRows(tenantId, es) == table;
    }
  }

  /** Seeding twice adds no rows the second time. */
  lemma SeedIdempotent(d: Dict, tenantId: Option<string>, table: seq<AuthContext>)
    ensures var once := SeedFrom(d, 0, tenantId, table);
      SeedFrom(d, 0, tenantId, once) == once
  {
    var c := TenantRowCount(table, tenantId);
    var n := if c >= |d| then 0 else |d| - c;
    var once := SeedFrom(d, 0, tenantId, table);
    SeedClosedForm(d, tenantId, table);
    TenantRowCountSeedRows(table, tenantId, d[..n]);
    assert TenantRowCount(once, tenantId) >= |d|;
    SeedClosedForm(d, tenantId, once);
    assert SeedRows(tenantId, d[..0]) == [];
  }

  datatype SyncOutcome = SyncOutcome(listed: seq<AcrRef>, created: seq<AcrRef>,
                                     table: seq<AuthContext>, cache: Option<Dict>)

  /** `CreateAuthContextViaGraph`: a creation request to the directory for
      every dictionary entry, and the count-gated local seeding. */
  function CreateAuthContextViaGraph(tenantId: Option<string>, cache: Option<Dict>, remote: seq<AcrRef>,
                                     table: seq<AuthContext>): (r: Result<(seq<AcrRef>, seq<AuthContext>, Option<Dict>), AdminError>)
    ensures AuthenticationContextValues(cache, remote).Failure? <==> r.Failure?
    ensures r.Success? ==>
      var d := AuthenticationContextValues(cache, remote).value.dict;
      var c := TenantRowCount(table, tenantId);
      && |r.value.0| == |d|
      && (forall k :: 0 <= k < |d| ==> r.value.0[k] == AcrRef(d[k].0, d[k].1))
      && r.value.1 == table + SeedRows(tenantId, d[..if c >= |d| then 0 else |d| - c])
  {
    match AuthenticationContextValues(cache, remote)
    case Failure(e) => Failure(e)
    case Success(lookup) =>
      var d := lookup.dict;
      var created := seq(|d|, k requires 0 <= k < |d| => AcrRef(d[k].0, d[k].1));
      SeedClosedForm(d, tenantId, table);
      Success((created, SeedFrom(d, 0, tenantId, table), lookup.cache))
  }

  /** `CreateOrFetch`: a non-empty directory list is returned and nothing is
      created; otherwise the contexts are seeded and the (empty) list that was
      read before seeding is returned. */
  function CreateOrFetch(tenantId: Option<string>, cache: Option<Dict>, remote: seq<AcrRef>,
                         table: seq<AuthContext>): (r: Result<SyncOutcome, AdminError>)
    ensures |remote| > 0 ==> r == Success(SyncOutcome(remote, [], table, cache))
    ensures |remote| == 0 ==>
      && r.Success? && r.value.listed == []
      && var d := if cache.Some? then cache.value else Defaults;
         var c := TenantRowCount(table, tenantId);
         && |r.value.created| == |d|
         && (forall k :: 0 <= k < |d| ==> r.value.created[k] == AcrRef(d[k].0, d[k].1))
         && r.value.table == table + SeedRows(tenantId, d[..if c >= |d| then 0 else |d| - c])
         && r.value.cache == cache
  {
    if |remote| > 0 then Success(SyncOutcome(remote, [], table, cache))
    else
      match CreateAuthContextViaGraph(tenantId, cache, remote, table)
      case Failure(e) => Failure(e)
      case Success((created, rows, cache')) => Success(SyncOutcome(remote, created, rows, cache'))
  }

  /** Synchronising twice creates no duplicate rows: the second run adds no
      local row whether or not the directory now lists the created contexts,
      and creates nothing remotely when it does. */
  lemma CreateOrFetchTwice(tenantId: Option<string>, cache: Option<Dict>, table: seq<AuthContext>, remote2: seq<AcrRef>)
    requires CreateOrFetch(tenantId, cache, [], table).Success?
    requires var first := CreateOrFetch(tenantId, cache, [], table).value;
      remote2 == [] || remote2 == first.created
    ensures var first := CreateOrFetch(tenantId, cache, [], table).value;
      var second := CreateOrFetch(tenantId, first.cache, remote2, first.table);
      && second.Success?
      && second.value.table == first.table
      && (|remote2| > 0 ==> second.value.created == [])
  {
    var d := if cache.Some? then cache.value else Defaults;
    SeedClosedForm(d, tenantId, table);
    SeedIdempotent(d, tenantId, table);
    var first := CreateOrFetch(tenantId, cache, [], table).value;
    SeedClosedForm(d, tenantId, first.table);
  }
}
