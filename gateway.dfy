/**
 * The admin endpoint over the `visa_policies` table: GET lists rows
 * (filtered by passport and/or destination, ordered by destination) without
 * a credential; PUT upserts one row and DELETE removes one, both behind the
 * `x-admin-password` check. The table is the map field of `PolicyStore`;
 * whether the store call itself fails is the parameter `storeError`.
 */
module Gateway {
  import opened JsValues
  import opened PolicyData
  import opened Http
  import opened AdminAuth

  /**
   * A request: its method, the `x-admin-password` header, the query
   * parameters GET reads and the body fields PUT and DELETE read. The
   * policy and duration are the numbers `Number(...)` made of the body's
   * fields.
   */
  datatype Request = Request(
    httpMethod: string,
    header: Option<string>,
    queryPassport: Option<string>,
    queryDestination: Option<string>,
    bodyPassport: Option<string>,
    bodyDestination: Option<string>,
    bodyPolicy: int,
    bodyDuration: int)

  const MissingKeyMessage := "passport and destination are required"

  /** A GET filter: a query parameter that is missing or empty does not filter. */
  predicate Matches(k: (string, string), passport: Option<string>, destination: Option<string>) {
    && (Truthy(passport) ==> k.0 == passport.value)
    && (Truthy(destination) ==> k.1 == destination.value)
  }

  /** The table as rows. */
  function RowAt(t: Table, k: (string, string)): Row
    requires k in t
  {
    Row(k.0, k.1, t[k].0, t[k].1)
  }

  /** The rows of the table that pass the GET filters. */
  function Selected(t: Table, passport: Option<string>, destination: Option<string>): set<Row> {
    set k | k in t && Matches(k, passport, destination) :: RowAt(t, k)
  }

  /**
   * `a` sorts before or equal to `b`, comparing code points from the
   * left; a proper prefix sorts first.
   */
  predicate StrLe(a: string, b: string) {
    |a| == 0 || (|b| > 0 && (a[0] < b[0] || (a[0] == b[0] && StrLe(a[1..], b[1..]))))
  }

  lemma {:induction false} StrLeTotal(a: string, b: string)
    ensures StrLe(a, b) || StrLe(b, a)
  {
    if |a| > 0 && |b| > 0 && a[0] == b[0] {
      StrLeTotal(a[1..], b[1..]);
    }
  }

  lemma {:induction false} StrLeTransitive(a: string, b: string, c: string)
    requires StrLe(a, b) && StrLe(b, c)
    ensures StrLe(a, c)
  {
    if |a| > 0 && a[0] == b[0] && b[0] == c[0] {
      StrLeTransitive(a[1..], b[1..], c[1..]);
    }
  }

  /** `.order('destination', { ascending: true })`: each row's destination sorts before or equal to the next one's. */
  predicate SortedByDestination(rows: seq<Row>) {
    forall i :: 0 <= i < |rows| - 1 ==> StrLe(rows[i].destination, rows[i + 1].destination)
  }

  /** Ascending between neighbours is ascending between any two rows. */
  lemma {:induction false} SortedPairwise(rows: seq<Row>, i: int, j: int)
    requires SortedByDestination(rows) && 0 <= i <= j < |rows|
    ensures StrLe(rows[i].destination, rows[j].destination)
  {
    if i == j {
      StrLeReflexive(rows[i].destination);
    } else {
      SortedPairwise(rows, i, j - 1);
      StrLeTransitive(rows[i].destination, rows[j - 1].destination, rows[j].destination);
    }
  }

  lemma {:induction false} StrLeReflexive(a: string)
    ensures StrLe(a, a)
  {
    if |a| > 0 {
      StrLeReflexive(a[1..]);
    }
  }

  /** Puts `r` into a destination-sorted list, keeping it sorted and losing nothing. */
  function InsertByDestination(rows: seq<Row>, r: Row): (res: seq<Row>)
    requires SortedByDestination(rows)
    ensures SortedByDestination(res)
    ensures |res| == |rows| + 1
    ensures forall x :: x in res <==> x in rows || x == r
  {
    if rows == [] || StrLe(r.destination, rows[0].destination) then
      [r] + rows
    else
      StrLeTotal(r.destination, rows[0].destination);
      [rows[0]] + InsertByDestination(rows[1..], r)
  }

  /** Prepending a row whose key the list does not have keeps the keys unique. */
  lemma ConsUnique(x: Row, s: seq<Row>)
    requires UniqueKeys(s) && forall y :: y in s ==> y.Key() != x.Key()
    ensures UniqueKeys([x] + s)
  {
    forall i, j | 0 <= i < j < |s| + 1 ensures ([x] + s)[i].Key() != ([x] + s)[j].Key() {
      assert ([x] + s)[j] == s[j - 1];
      if i == 0 {
        assert s[j - 1] in s;
      } else {
        assert ([x] + s)[i] == s[i - 1];
      }
    }
  }

  /** Inserting a row with a new key keeps the keys unique. */
  lemma {:induction false} InsertKeepsUnique(rows: seq<Row>, r: Row)
    requires SortedByDestination(rows) && UniqueKeys(rows)
    requires forall x :: x in rows ==> x.Key() != r.Key()
    ensures UniqueKeys(InsertByDestination(rows, r))
  {
    if rows == [] || StrLe(r.destination, rows[0].destination) {
      ConsUnique(r, rows);
    } else {
      var tail := rows[1..];
      assert forall x :: x in tail ==> x in rows;
      InsertKeepsUnique(tail, r);
      forall y | y in tail ensures y.Key() != rows[0].Key() {
        var k :| 0 <= k < |tail| && tail[k] == y;
        assert rows[k + 1] == y;
      }
      ConsUnique(rows[0], InsertByDestination(tail, r));
    }
  }

  class PolicyStore {
    var table: Table

    constructor (initial: Table)
      ensures table == initial
    {
      table := initial;
    }

    /**
     * GET: `select('*')` with the filters that are present, ordered by
     * destination. Rows with equal destinations come in no particular
     * order.
     */
    method List(passport: Option<string>, destination: Option<string>) returns (rows: seq<Row>)
      ensures SortedByDestination(rows)
      ensures UniqueKeys(rows)
      ensures forall r :: r in rows <==> r in Selected(table, passport, destination)
    {
      rows := [];
      var pending := table.Keys;
      while pending != {}
        invariant pending <= table.Keys
        invariant SortedByDestination(rows) && UniqueKeys(rows)
        invariant forall r :: r in rows <==> r in Selected(table, passport, destination) && r.Key() !in pending
        decreases pending
      {
        var k :| k in pending;
        pending := pending - {k};
        if Matches(k, passport, destination) {
          InsertKeepsUnique(rows, RowAt(table, k));
          rows := InsertByDestination(rows, RowAt(table, k));
        }
      }
    }

    /** The handler: GET needs no credential, every other method does. */
    method Handle(req: Request, secret: Option<string>, storeError: Option<string>) returns (resp: Response)
      modifies this
      // GET reads and never writes
      ensures req.httpMethod == "GET" ==> table == old(table)
      ensures req.httpMethod == "GET" && storeError.Some? ==>
        resp == Response(InternalServerError, Error(storeError.value))
      ensures req.httpMethod == "GET" && storeError.None? ==>
        && resp.status == Ok && resp.body.Rows?
        && SortedByDestination(resp.body.rows) && UniqueKeys(resp.body.rows)
        && forall r :: r in resp.body.rows <==> r in Selected(old(table), req.queryPassport, req.queryDestination)
      // any other method without the credential: 401, before any other check
      ensures req.httpMethod != "GET" && !CheckAuth(req.header, secret) ==>
        resp == Response(Unauthorized, Error("Unauthorized")) && table == old(table)
      // an authorised PUT or DELETE without both keys: 400
      ensures ((req.httpMethod == "PUT" || req.httpMethod == "DELETE") && CheckAuth(req.header, secret)
        && !(Truthy(req.bodyPassport) && Truthy(req.bodyDestination))) ==>
        resp == Response(BadRequest, Error(MissingKeyMessage)) && table == old(table)
      // an authorised PUT or DELETE with both keys that the store refuses: 500, nothing changes
      ensures ((req.httpMethod == "PUT" || req.httpMethod == "DELETE") && CheckAuth(req.header, secret)
        && Truthy(req.bodyPassport) && Truthy(req.bodyDestination) && storeError.Some?) ==>
        resp == Response(InternalServerError, Error(storeError.value)) && table == old(table)
      // PUT creates or replaces the one entry and answers with the stored row
      ensures (req.httpMethod == "PUT" && CheckAuth(req.header, secret)
        && Truthy(req.bodyPassport) && Truthy(req.bodyDestination) && storeError.None?) ==>
        var row := Row(req.bodyPassport.value, req.bodyDestination.value, req.bodyPolicy, req.bodyDuration);
        table == Upsert(old(table), row) && resp == Response(Ok, Rows([row]))
      // DELETE removes the one entry, present or not, and acknowledges
      ensures (req.httpMethod == "DELETE" && CheckAuth(req.header, secret)
        && Truthy(req.bodyPassport) && Truthy(req.bodyDestination) && storeError.None?) ==>
        table == old(table) - {(req.bodyPassport.value, req.bodyDestination.value)}
        && resp == Response(Ok, Acknowledged)
      // any other authorised method: 405
      ensures req.httpMethod !in {"GET", "PUT", "DELETE"} && CheckAuth(req.header, secret) ==>
        resp == Response(MethodNotAllowed, NoBody) && table == old(table)
    {
      if req.httpMethod == "GET" {
        if storeError.Some? {
          return Response(InternalServerError, Error(storeError.value));
        }
        var rows := List(req.queryPassport, req.queryDestination);
        return Response(Ok, Rows(rows));
      }

      if !CheckAuth(req.header, secret) {
        return Response(Unauthorized, Error("Unauthorized"));
      }

      if req.httpMethod == "PUT" {
        if !Truthy(req.bodyPassport) || !Truthy(req.bodyDestination) {
          return Response(BadRequest, Error(MissingKeyMessage));
        }
        if storeError.Some? {
          return Response(InternalServerError, Error(storeError.value));
        }
        var row := Row(req.bodyPassport.value, req.bodyDestination.value, req.bodyPolicy, req.bodyDuration);
        table := Upsert(table, row);
        return Response(Ok, Rows([row]));
      }

      if req.httpMethod == "DELETE" {
        if !Truthy(req.bodyPassport) || !Truthy(req.bodyDestination) {
          return Response(BadRequest, Error(MissingKeyMessage));
        }
        if storeError.Some? {
          return Response(InternalServerError, Error(storeError.value));
        }
        table := table - {(req.bodyPassport.value, req.bodyDestination.value)};
        return Response(Ok, Acknowledged);
      }

      return Response(MethodNotAllowed, NoBody);
    }
  }

  /** After upserting a row, a GET filtered on both of its keys selects exactly that row. */
  lemma UpsertThenSelect(t: Table, row: Row)
    requires row.passport != "" && row.destination != ""
    ensures Selected(Upsert(t, row), Some(row.passport), Some(row.destination)) == {row}
  {
    var t' := Upsert(t, row);
    var s := Selected(t', Some(row.passport), Some(row.destination));
    assert RowAt(t', row.Key()) == row;
    assert row in s;
    forall x | x in s ensures x == row {
      var k :| k in t' && Matches(k, Some(row.passport), Some(row.destination)) && x == RowAt(t', k);
      assert k == row.Key();
    }
  }

  /** After deleting a key, a GET filtered on both of its parts selects nothing. */
  lemma DeleteThenSelect(t: Table, p: string, d: string)
    requires p != "" && d != ""
    ensures Selected(t - {(p, d)}, Some(p), Some(d)) == {}
  {
    var t' := t - {(p, d)};
    forall k | k in t' ensures !Matches(k, Some(p), Some(d)) {
      assert k != (p, d);
    }
  }

  /** A listing without repeated keys has one element per selected row. */
  lemma ListingSize(rows: seq<Row>, s: set<Row>)
    requires UniqueKeys(rows)
    requires forall x :: x in rows <==> x in s
    ensures |rows| == |s|
  {
    assert Distinct(rows);
    assert (set x | x in rows) == s;
    DistinctCard(rows);
  }

  /**
   * The scenario the admin console relies on: after an accepted PUT, a GET
   * filtered on the same passport and destination answers with exactly the
   * row just written; after an accepted DELETE of it, with no row.
   */
  method PutGetDelete(store: PolicyStore, secret: string, p: string, d: string, policy: int, duration: int)
    returns (afterPut: Response, afterDelete: Response)
    requires secret != "" && p != "" && d != ""
    modifies store
    ensures afterPut == Response(Ok, Rows([Row(p, d, policy, duration)]))
    ensures afterDelete == Response(Ok, Rows([]))
    ensures store.table == old(store.table) - {(p, d)}
  {
    var row := Row(p, d, policy, duration);
    var put := Request("PUT", Some(secret), None, None, Some(p), Some(d), policy, duration);
    var get := Request("GET", None, Some(p), Some(d), None, None, 0, 0);
    var del := Request("DELETE", Some(secret), None, None, Some(p), Some(d), 0, 0);
    var written := store.Handle(put, Some(secret), None);
    UpsertThenSelect(old(store.table), row);
    afterPut := store.Handle(get, Some(secret), None);
    ListingSize(afterPut.body.rows, {row});
    assert afterPut.body.rows[0] in afterPut.body.rows;
    assert afterPut.body.rows == [row];
    var deleted := store.Handle(del, Some(secret), None);
    DeleteThenSelect(store.table, p, d);
    afterDelete := store.Handle(get, Some(secret), None);
    ListingSize(afterDelete.body.rows, {});
  }
}
