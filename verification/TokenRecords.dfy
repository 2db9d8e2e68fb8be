/** Token records, the token file, and the list operations `registry.rs` performs on both. */
module TokenRecords {
  import opened Text

  type Id = nat

  datatype Status = Active | Revoked

  /**
   * The `token_hash` field. `Digest(t)` is the hash of the token `t`: a free constructor, that is,
   * a hash without collisions. `Malformed` is a field that is not the hex form of any digest.
   */
  datatype StoredHash = Digest(token: string) | Malformed(text: string)

  datatype TokenRecord = TokenRecord(
    id: Id, name: string, scope: seq<string>, allRoutes: bool, createdAt: int,
    status: Status, tokenHash: StoredHash, creds: map<string, string>)
  {
    predicate AllowsRoute(route: string) {
      allRoutes || route in scope
    }
  }

  /** What `create_token` is asked for. */
  datatype Request = Request(name: string, scope: seq<string>, allRoutes: bool, creds: map<string, string>)
  {
    /** A scope the legacy migration leaves alone. */
    predicate Explicit() {
      scope != [] || allRoutes
    }
  }

  function NewRecord(id: Id, token: string, now: int, request: Request): TokenRecord {
    TokenRecord(id, request.name, request.scope, request.allRoutes, now, Active, Digest(token), request.creds)
  }

  /** Active, with the token's hash, and otherwise what was asked for. */
  predicate IsNewRecord(r: TokenRecord, id: Id, token: string, now: int, request: Request) {
    && r.id == id && r.status == Active && r.tokenHash == Digest(token) && r.createdAt == now
    && r.name == request.name && r.scope == request.scope && r.allRoutes == request.allRoutes
    && r.creds == request.creds
  }

  /** The token file: absent, not readable as a list of records, or a list of records. */
  datatype TokenFile = NoFile | Unparsable | Snapshot(records: seq<TokenRecord>)

  function Stored(file: TokenFile): seq<TokenRecord> {
    if file.Snapshot? then file.records else []
  }

  /** The legacy migration of one record: an empty scope used to mean every route. */
  function Migrate(r: TokenRecord): TokenRecord {
    if r.scope == [] && !r.allRoutes then r.(allRoutes := true) else r
  }

  /** The migration touches nothing but `all_routes`, and that only where no scope is given. */
  lemma MigrateIs(r: TokenRecord)
    ensures var m := Migrate(r);
            && m.allRoutes == (r.allRoutes || r.scope == [])
            && m.id == r.id && m.name == r.name && m.scope == r.scope && m.createdAt == r.createdAt
            && m.status == r.status && m.tokenHash == r.tokenHash && m.creds == r.creds
  {
  }

  /**
   * The record `r` started as `k`: it is `k` but for its status, or `k` as the legacy migration
   * leaves it but for its status.
   */
  predicate VersionOf(r: TokenRecord, k: TokenRecord) {
    r == k.(status := r.status) || r == Migrate(k).(status := r.status)
  }

  lemma VersionKept(r: TokenRecord, k: TokenRecord, status: Status)
    requires VersionOf(r, k)
    ensures VersionOf(r.(status := status), k) && VersionOf(Migrate(r), k)
    ensures r.id == k.id && r.name == k.name && r.scope == k.scope && r.tokenHash == k.tokenHash && r.creds == k.creds
    ensures r.allRoutes == k.allRoutes || (r.allRoutes && k.scope == [])
  {
  }

  function Migrated(rs: seq<TokenRecord>): (ms: seq<TokenRecord>)
    ensures |ms| == |rs|
    ensures forall i :: 0 <= i < |rs| ==> ms[i] == Migrate(rs[i])
  {
    seq(|rs|, i requires 0 <= i < |rs| => Migrate(rs[i]))
  }

  /** The records `load_or_create` starts from. */
  function Load(file: TokenFile): seq<TokenRecord> {
    Migrated(Stored(file))
  }

  // ---------------------------------------------------------------- list operations

  predicate HasId(rs: seq<TokenRecord>, id: Id) {
    exists i :: 0 <= i < |rs| && rs[i].id == id
  }

  predicate HasName(rs: seq<TokenRecord>, name: string) {
    exists i :: 0 <= i < |rs| && rs[i].name == name
  }

  /** The first record with this id. */
  function Lookup(rs: seq<TokenRecord>, id: Id): Option<TokenRecord> {
    if rs == [] then None
    else if rs[0].id == id then Some(rs[0])
    else Lookup(rs[1..], id)
  }

  /** Overwrites the status of the first record with this id. */
  function WithStatus(rs: seq<TokenRecord>, id: Id, status: Status): (out: seq<TokenRecord>)
    ensures |out| == |rs|
  {
    if rs == [] then []
    else if rs[0].id == id then [rs[0].(status := status)] + rs[1..]
    else [rs[0]] + WithStatus(rs[1..], id, status)
  }

  /** `retain(|token| token.id != id)`. */
  function Without(rs: seq<TokenRecord>, id: Id): seq<TokenRecord> {
    if rs == [] then []
    else if rs[0].id == id then Without(rs[1..], id)
    else [rs[0]] + Without(rs[1..], id)
  }

  /** An active record whose stored hash is the token's. */
  predicate Authenticates(r: TokenRecord, token: string) {
    r.status == Active && r.tokenHash == Digest(token)
  }

  /** `validate`. */
  function Validate(rs: seq<TokenRecord>, token: string): (r: Option<TokenRecord>)
    ensures r.Some? ==> r.value in rs && Authenticates(r.value, token)
    ensures r.None? ==> forall i :: 0 <= i < |rs| ==> !Authenticates(rs[i], token)
  {
    if rs == [] then None
    else if Authenticates(rs[0], token) then Some(rs[0])
    else Validate(rs[1..], token)
  }

  /** Record `i` authenticates the token and none before it does. */
  ghost predicate FirstOf(rs: seq<TokenRecord>, token: string, i: nat) {
    && i < |rs| && Authenticates(rs[i], token)
    && forall j :: 0 <= j < i ==> !Authenticates(rs[j], token)
  }

  /** The result is the first record that authenticates the token, and nothing exactly if none does. */
  lemma {:induction false} ValidateFirst(rs: seq<TokenRecord>, token: string)
    ensures forall i: nat :: FirstOf(rs, token, i) ==> Validate(rs, token) == Some(rs[i])
    ensures Validate(rs, token).Some? ==> exists i: nat :: FirstOf(rs, token, i)
  {
    if rs != [] {
      ValidateFirst(rs[1..], token);
      if Authenticates(rs[0], token) {
        assert FirstOf(rs, token, 0);
      } else {
        forall i: nat | FirstOf(rs, token, i)
          ensures FirstOf(rs[1..], token, i - 1)
        {
        }
        if Validate(rs, token).Some? {
          var i: nat :| FirstOf(rs[1..], token, i);
          assert forall j :: 1 <= j <= i ==> rs[j] == rs[1..][j - 1];
          assert FirstOf(rs, token, i + 1);
        }
      }
    }
  }

  // ---------------------------------------------------------------- distinctness

  ghost predicate DistinctIds(rs: seq<TokenRecord>) {
    forall i, j :: 0 <= i < j < |rs| ==> rs[i].id != rs[j].id
  }

  ghost predicate DistinctNames(rs: seq<TokenRecord>) {
    forall i, j :: 0 <= i < j < |rs| ==> rs[i].name != rs[j].name
  }

  ghost predicate DistinctHashes(rs: seq<TokenRecord>) {
    forall i, j :: 0 <= i < j < |rs| ==> rs[i].tokenHash != rs[j].tokenHash
  }

  /** With distinct ids, `Lookup` finds each record under its id. */
  lemma {:induction false} LookupAt(rs: seq<TokenRecord>, i: nat)
    requires DistinctIds(rs) && i < |rs|
    ensures Lookup(rs, rs[i].id) == Some(rs[i])
  {
    if i > 0 {
      assert rs[0].id != rs[i].id;
      LookupAt(rs[1..], i - 1);
    }
  }

  lemma {:induction false} LookupFrom(rs: seq<TokenRecord>, id: Id) returns (i: nat)
    requires Lookup(rs, id).Some?
    ensures i < |rs| && rs[i] == Lookup(rs, id).value && rs[i].id == id
  {
    if rs[0].id == id {
      i := 0;
    } else {
      var j := LookupFrom(rs[1..], id);
      i := j + 1;
    }
  }

  lemma {:induction false} LookupSome(rs: seq<TokenRecord>, i: nat)
    requires i < |rs|
    ensures Lookup(rs, rs[i].id).Some?
  {
    if i > 0 {
      LookupSome(rs[1..], i - 1);
    }
  }

  lemma LookupIffHasId(rs: seq<TokenRecord>, id: Id)
    ensures Lookup(rs, id).Some? <==> HasId(rs, id)
  {
    if Lookup(rs, id).Some? {
      var i := LookupFrom(rs, id);
    }
    if HasId(rs, id) {
      var i :| 0 <= i < |rs| && rs[i].id == id;
      LookupSome(rs, i);
    }
  }

  lemma {:induction false} WithStatusAt(rs: seq<TokenRecord>, id: Id, status: Status, i: nat)
    requires DistinctIds(rs) && i < |rs|
    ensures WithStatus(rs, id, status)[i] == if rs[i].id == id then rs[i].(status := status) else rs[i]
  {
    if i > 0 {
      assert rs[0].id != rs[i].id;
      WithStatusAt(rs[1..], id, status, i - 1);
    }
  }

  /** Where the `i`-th survivor of `Without` came from. */
  function Origin(rs: seq<TokenRecord>, id: Id, i: nat): (p: nat)
    requires i < |Without(rs, id)|
    ensures p < |rs| && rs[p] == Without(rs, id)[i]
  {
    if rs[0].id == id then Origin(rs[1..], id, i) + 1
    else if i == 0 then 0
    else Origin(rs[1..], id, i - 1) + 1
  }

  lemma {:induction false} OriginIncreases(rs: seq<TokenRecord>, id: Id, i: nat, j: nat)
    requires i < j < |Without(rs, id)|
    ensures Origin(rs, id, i) < Origin(rs, id, j)
  {
    if rs[0].id == id {
      OriginIncreases(rs[1..], id, i, j);
    } else if i != 0 {
      OriginIncreases(rs[1..], id, i - 1, j - 1);
    }
  }

  /** And where a record that stays ends up. */
  function Kept(rs: seq<TokenRecord>, id: Id, p: nat): (i: nat)
    requires p < |rs| && rs[p].id != id
    ensures i < |Without(rs, id)| && Without(rs, id)[i] == rs[p]
  {
    if rs[0].id == id then Kept(rs[1..], id, p - 1)
    else if p == 0 then 0
    else Kept(rs[1..], id, p - 1) + 1
  }

  lemma {:induction false} WithoutDrops(rs: seq<TokenRecord>, id: Id)
    ensures forall i :: 0 <= i < |Without(rs, id)| ==> Without(rs, id)[i].id != id
  {
    if rs != [] {
      WithoutDrops(rs[1..], id);
    }
  }

  // ---------------------------------------------------------------- rollback is exact

  /** Removing an id that occurs only as the last record undoes a push. */
  lemma {:induction false} WithoutUndoesPush(rs: seq<TokenRecord>, r: TokenRecord)
    requires !HasId(rs, r.id)
    ensures Without(rs + [r], r.id) == rs
  {
    if rs == [] {
      assert rs + [r] == [r];
    } else {
      assert rs[0].id != r.id;
      assert forall i :: 0 <= i < |rs[1..]| ==> rs[1..][i] == rs[i + 1];
      assert (rs + [r])[1..] == rs[1..] + [r];
      WithoutUndoesPush(rs[1..], r);
    }
  }

  /** Putting the captured status back undoes an overwrite. */
  lemma {:induction false} StatusRestored(rs: seq<TokenRecord>, id: Id, status: Status)
    requires Lookup(rs, id).Some?
    ensures Lookup(WithStatus(rs, id, status), id).Some?
    ensures WithStatus(WithStatus(rs, id, status), id, Lookup(rs, id).value.status) == rs
  {
    if rs[0].id == id {
      assert [rs[0]] + rs[1..] == rs;
    } else {
      StatusRestored(rs[1..], id, status);
    }
  }

  /** Where two records have one hash, revoking the first leaves the token to the second. */
  lemma DuplicateHashStaysValid(a: TokenRecord, b: TokenRecord, token: string)
    requires a.id != b.id && Authenticates(a, token) && Authenticates(b, token)
    ensures Validate(WithStatus([a, b], a.id, Revoked), token) == Some(b)
  {
    assert WithStatus([a, b], a.id, Revoked) == [a.(status := Revoked), b];
  }

  // ---------------------------------------------------------------- the migration

  lemma MigrateIdempotent(rs: seq<TokenRecord>)
    ensures Migrated(Migrated(rs)) == Migrated(rs)
  {
  }

  /** `Migrated` leaves a list alone exactly when every record states its scope. */
  lemma MigratedFixed(rs: seq<TokenRecord>)
    ensures Migrated(rs) == rs <==> forall i :: 0 <= i < |rs| ==> rs[i].scope != [] || rs[i].allRoutes
  {
    if Migrated(rs) == rs {
      forall i | 0 <= i < |rs|
        ensures rs[i].scope != [] || rs[i].allRoutes
      {
        assert Migrate(rs[i]) == Migrated(rs)[i] == rs[i];
      }
    }
  }
}
