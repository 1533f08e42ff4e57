/**
 * The publish endpoint: after the method and secret checks it reads every
 * row of the table and folds them into the two lookup files,
 * `visaPolicy[passport][destination] = policy` and
 * `visaDuration[passport][destination] = duration`, which it writes out in
 * full, and answers with the number of passports and of rows.
 */
module Publish {
  import opened JsValues
  import opened PolicyData
  import opened Http
  import opened AdminAuth

  /** What reading the whole table gave: the rows, or the store's error message. */
  datatype FetchResult = Fetched(rows: seq<Row>) | FetchFailed(message: string)

  /** The two files the endpoint writes. */
  datatype Artifacts = Artifacts(visaPolicy: Nested, visaDuration: Nested)

  /** The 400 answer's message; the dash is U+2014. */
  const NoDataMessage := "No data in database \U{2014} run the seed script first"

  /** Which column of the rows a lookup file holds. */
  datatype Column = PolicyColumn | DurationColumn

  function Pick(r: Row, c: Column): int {
    match c
    case PolicyColumn => r.policy
    case DurationColumn => r.duration
  }

  /** One step of the fold: `if (!o[p]) o[p] = {}; o[p][d] = v`. */
  function Assign(o: Nested, p: string, d: string, v: int): (r: Nested)
    ensures ValidNested(o) ==> ValidNested(r)
  {
    var inner := if p in o.fields then o.fields[p] else EmptyObj();
    o.Put(p, inner.Put(d, v))
  }

  /** The lookup file the fold has built once it has gone through `rows`. */
  function Grouped(rows: seq<Row>, c: Column): (o: Nested)
    // each row adds at most one passport
    ensures |o.keys| <= |rows|
  {
    if rows == [] then EmptyObj()
    else
      var last := rows[|rows| - 1];
      Assign(Grouped(rows[..|rows| - 1], c), last.passport, last.destination, Pick(last, c))
  }

  /** The position of the last row with key `k`, or -1 when no row has it. */
  function LastIndex(rows: seq<Row>, k: (string, string)): (i: int)
    ensures -1 <= i < |rows|
    ensures i >= 0 ==> rows[i].Key() == k
    ensures forall j :: i < j < |rows| ==> rows[j].Key() != k
  {
    if rows == [] then -1
    else if rows[|rows| - 1].Key() == k then |rows| - 1
    else LastIndex(rows[..|rows| - 1], k)
  }

  /** The fold over the rows, as the handler runs it: the two files are built side by side. */
  method BuildLookups(data: seq<Row>) returns (visaPolicy: Nested, visaDuration: Nested)
    ensures visaPolicy == Grouped(data, PolicyColumn)
    ensures visaDuration == Grouped(data, DurationColumn)
  {
    visaPolicy, visaDuration := EmptyObj(), EmptyObj();
    var i := 0;
    while i < |data|
      invariant 0 <= i <= |data|
      invariant visaPolicy == Grouped(data[..i], PolicyColumn)
      invariant visaDuration == Grouped(data[..i], DurationColumn)
    {
      visaPolicy, visaDuration := FoldRow(data, i, visaPolicy, visaDuration);
      i := i + 1;
    }
    assert data[..i] == data;
  }

  /** The loop body: row `i` goes into both files. */
  method FoldRow(data: seq<Row>, i: nat, visaPolicy: Nested, visaDuration: Nested)
    returns (policy': Nested, duration': Nested)
    requires i < |data|
    requires visaPolicy == Grouped(data[..i], PolicyColumn)
    requires visaDuration == Grouped(data[..i], DurationColumn)
    ensures policy' == Grouped(data[..i + 1], PolicyColumn)
    ensures duration' == Grouped(data[..i + 1], DurationColumn)
  {
    var row := data[i];
    policy' := SetEntry(visaPolicy, row.passport, row.destination, row.policy);
    duration' := SetEntry(visaDuration, row.passport, row.destination, row.duration);
    GroupedStep(data, i, PolicyColumn);
    GroupedStep(data, i, DurationColumn);
  }

  /** `if (!o[p]) o[p] = {}` followed by `o[p][d] = v`. */
  method SetEntry(o: Nested, p: string, d: string, v: int) returns (r: Nested)
    ensures r == Assign(o, p, d, v)
  {
    r := o;
    if p !in r.fields {
      r := r.Put(p, EmptyObj());
    }
    r := r.Put(p, r.fields[p].Put(d, v));
    AssignInPlace(o, p, d, v);
  }

  lemma GroupedStep(data: seq<Row>, i: nat, c: Column)
    requires i < |data|
    ensures Grouped(data[..i + 1], c) ==
      Assign(Grouped(data[..i], c), data[i].passport, data[i].destination, Pick(data[i], c))
  {
    assert data[..i + 1][..i] == data[..i];
  }

  /** The two statements of the loop body do what one `Assign` step says. */
  lemma AssignInPlace(o: Nested, p: string, d: string, v: int)
    ensures var o1 := if p !in o.fields then o.Put(p, EmptyObj()) else o;
      o1.Put(p, o1.fields[p].Put(d, v)) == Assign(o, p, d, v)
  {
    if p !in o.fields {
      var e: Obj<int> := EmptyObj();
      var o1 := o.Put(p, e);
      var x := e.Put(d, v);
      assert o1.fields[p] == e;
      assert o1.fields[p := x] == o.fields[p := x];
      assert o1.Put(p, x) == Obj(o.keys + [p], o.fields[p := x]);
    }
  }

  /** The fold always builds well-formed objects. */
  lemma {:induction false} GroupedValid(rows: seq<Row>, c: Column)
    ensures ValidNested(Grouped(rows, c))
  {
    if rows != [] {
      GroupedValid(rows[..|rows| - 1], c);
    }
  }

  /** The passports that occur in the rows. */
  function Passports(rows: seq<Row>): set<string> {
    set r | r in rows :: r.passport
  }

  /**
   * The publish handler. The store read is the parameter `fetch`; `written`
   * is what the endpoint writes to the two files, `None` when it writes
   * nothing.
   */
  method Handle(httpMethod: string, header: Option<string>, secret: Option<string>, fetch: FetchResult)
    returns (resp: Response, written: Option<Artifacts>)
    // the checks come first and in this order, whatever the table holds
    ensures httpMethod != "POST" ==> resp == Response(MethodNotAllowed, NoBody)
    ensures httpMethod == "POST" && !CheckAuth(header, secret) ==>
      resp == Response(Unauthorized, Error("Unauthorized"))
    ensures httpMethod == "POST" && CheckAuth(header, secret) && fetch.FetchFailed? ==>
      resp == Response(InternalServerError, Error(fetch.message))
    ensures httpMethod == "POST" && CheckAuth(header, secret) && fetch == Fetched([]) ==>
      resp == Response(BadRequest, Error(NoDataMessage))
    // the files are written exactly when the answer is 200, and they are the fold of the rows
    ensures written.Some? <==> resp.status == Ok
    ensures resp.status == Ok <==>
      httpMethod == "POST" && CheckAuth(header, secret) && fetch.Fetched? && fetch.rows != []
    ensures resp.status == Ok ==>
      && written.value == Artifacts(Grouped(fetch.rows, PolicyColumn), Grouped(fetch.rows, DurationColumn))
      && resp.body == Counts(|Passports(fetch.rows)|, |fetch.rows|)
  {
    written := None;
    if httpMethod != "POST" {
      return Response(MethodNotAllowed, NoBody), None;
    }
    if !Truthy(secret) || header != secret {
      return Response(Unauthorized, Error("Unauthorized")), None;
    }
    if fetch.FetchFailed? {
      return Response(InternalServerError, Error(fetch.message)), None;
    }
    var data := fetch.rows;
    if |data| == 0 {
      return Response(BadRequest, Error(NoDataMessage)), None;
    }
    var visaPolicy, visaDuration := BuildLookups(data);
    written := Some(Artifacts(visaPolicy, visaDuration));
    GroupedPassports(data, PolicyColumn);
    resp := Response(Ok, Counts(|visaPolicy.keys|, |data|));
  }

  /**
   * Last row wins: the file has an entry for (p, d) exactly when some row
   * has that key, and then it holds that column of the last such row. A
   * passport is a key exactly when some row names it.
   */
  lemma GroupedLookup(rows: seq<Row>, c: Column, p: string, d: string)
    ensures HasEntry(Grouped(rows, c), p, d) <==> LastIndex(rows, (p, d)) >= 0
    ensures HasEntry(Grouped(rows, c), p, d) ==>
      Grouped(rows, c).fields[p].fields[d] == Pick(rows[LastIndex(rows, (p, d))], c)
    ensures p in Grouped(rows, c).fields <==> p in Passports(rows)
  {
    GroupedEntry(rows, c, p, d);
    GroupedPassport(rows, c, p);
  }

  lemma {:induction false} GroupedEntry(rows: seq<Row>, c: Column, p: string, d: string)
    ensures HasEntry(Grouped(rows, c), p, d) <==> LastIndex(rows, (p, d)) >= 0
    ensures HasEntry(Grouped(rows, c), p, d) ==>
      Grouped(rows, c).fields[p].fields[d] == Pick(rows[LastIndex(rows, (p, d))], c)
  {
    if rows != [] {
      var init, last := rows[..|rows| - 1], rows[|rows| - 1];
      GroupedEntry(init, c, p, d);
      AssignLookup(Grouped(init, c), last.passport, last.destination, Pick(last, c), p, d);
    }
  }

  /** After one step, (p, d) has an entry exactly when it is the key assigned or had one before. */
  lemma AssignLookup(o: Nested, p': string, d': string, v: int, p: string, d: string)
    ensures HasEntry(Assign(o, p', d', v), p, d) <==> (p, d) == (p', d') || HasEntry(o, p, d)
    ensures (p, d) == (p', d') ==> Assign(o, p', d', v).fields[p].fields[d] == v
    ensures (p, d) != (p', d') && HasEntry(o, p, d) ==>
      Assign(o, p', d', v).fields[p].fields[d] == o.fields[p].fields[d]
  {
  }

  lemma {:induction false} GroupedPassport(rows: seq<Row>, c: Column, p: string)
    ensures p in Grouped(rows, c).fields <==> p in Passports(rows)
  {
    if rows != [] {
      var init, last := rows[..|rows| - 1], rows[|rows| - 1];
      GroupedPassport(init, c, p);
      assert Passports(rows) == Passports(init) + {last.passport} by {
        assert forall r :: r in rows <==> r in init || r == last;
      }
    }
  }

  /** With no key twice among the rows, every row's values are in the files. */
  lemma GroupedHoldsEveryRow(rows: seq<Row>, c: Column, i: int)
    requires UniqueKeys(rows) && 0 <= i < |rows|
    ensures HasEntry(Grouped(rows, c), rows[i].passport, rows[i].destination)
    ensures Grouped(rows, c).fields[rows[i].passport].fields[rows[i].destination] == Pick(rows[i], c)
  {
    GroupedEntry(rows, c, rows[i].passport, rows[i].destination);
    assert LastIndex(rows, rows[i].Key()) == i;
  }

  /**
   * With no key twice, what the files say does not depend on the order of
   * the rows: any reordering has the same entries with the same values and
   * the same passports. Only the enumeration order of the keys can differ.
   */
  lemma GroupedOrderFree(a: seq<Row>, b: seq<Row>, c: Column, p: string, d: string)
    requires UniqueKeys(a) && UniqueKeys(b) && forall r :: r in a <==> r in b
    ensures HasEntry(Grouped(a, c), p, d) <==> HasEntry(Grouped(b, c), p, d)
    ensures HasEntry(Grouped(a, c), p, d) ==>
      Grouped(a, c).fields[p].fields[d] == Grouped(b, c).fields[p].fields[d]
    ensures p in Grouped(a, c).fields <==> p in Grouped(b, c).fields
  {
    GroupedSubset(a, b, c, p, d);
    GroupedSubset(b, a, c, p, d);
    GroupedPassport(a, c, p);
    GroupedPassport(b, c, p);
    assert Passports(a) == Passports(b);
  }

  /** An entry of the fold of `a` is an entry of the fold of any `b` holding `a`'s rows, with the same value. */
  lemma GroupedSubset(a: seq<Row>, b: seq<Row>, c: Column, p: string, d: string)
    requires UniqueKeys(a) && UniqueKeys(b) && forall r :: r in a ==> r in b
    ensures HasEntry(Grouped(a, c), p, d) ==>
      HasEntry(Grouped(b, c), p, d) && Grouped(a, c).fields[p].fields[d] == Grouped(b, c).fields[p].fields[d]
  {
    GroupedEntry(a, c, p, d);
    var i := LastIndex(a, (p, d));
    if i >= 0 {
      GroupedHoldsEveryRow(a, c, i);
      assert a[i] in b;
      var j :| 0 <= j < |b| && b[j] == a[i];
      GroupedHoldsEveryRow(b, c, j);
    }
  }

  /** Two lookup files with the same passports and, under each, the same destinations, in the same order. */
  predicate SameShape(a: Nested, b: Nested) {
    && a.keys == b.keys
    && forall p :: p in a.fields ==> p in b.fields && a.fields[p].keys == b.fields[p].keys
  }

  /** The policy file and the duration file always have the same keys, outer and inner. */
  lemma {:induction false} GroupedSameShape(rows: seq<Row>)
    ensures SameShape(Grouped(rows, PolicyColumn), Grouped(rows, DurationColumn))
  {
    if rows != [] {
      GroupedSameShape(rows[..|rows| - 1]);
      GroupedValid(rows[..|rows| - 1], PolicyColumn);
      GroupedValid(rows[..|rows| - 1], DurationColumn);
    }
  }

  /** The `passports` count, the number of keys of the policy file, is the number of distinct passports. */
  lemma GroupedPassports(rows: seq<Row>, c: Column)
    ensures |Grouped(rows, c).keys| == |Passports(rows)|
  {
    var g := Grouped(rows, c);
    GroupedValid(rows, c);
    forall p ensures p in g.keys <==> p in Passports(rows) {
      GroupedPassport(rows, c, p);
    }
    assert (set k | k in g.keys) == Passports(rows);
    DistinctCard(g.keys);
  }

  lemma {:induction false} EntryCountFrame(a: Nested, b: Nested, ks: seq<string>)
    requires forall i :: 0 <= i < |ks| ==> ks[i] in a.fields && ks[i] in b.fields
    requires forall i :: 0 <= i < |ks| ==> |a.fields[ks[i]].keys| == |b.fields[ks[i]].keys|
    ensures EntryCount(a, ks) == EntryCount(b, ks)
  {
    if ks != [] {
      EntryCountFrame(a, b, ks[..|ks| - 1]);
    }
  }

  lemma {:induction false} EntryCountBump(a: Nested, b: Nested, ks: seq<string>, p: string)
    requires Distinct(ks)
    requires forall i :: 0 <= i < |ks| ==> ks[i] in a.fields && ks[i] in b.fields
    requires forall i :: 0 <= i < |ks| && ks[i] != p ==> |a.fields[ks[i]].keys| == |b.fields[ks[i]].keys|
    requires p in ks ==> |b.fields[p].keys| == |a.fields[p].keys| + 1
    ensures EntryCount(b, ks) == EntryCount(a, ks) + (if p in ks then 1 else 0)
  {
    if ks != [] {
      var init := ks[..|ks| - 1];
      EntryCountBump(a, b, init, p);
      assert ks[|ks| - 1] == p ==> p !in init;
    }
  }

  lemma EntryCountSnoc(o: Nested, ks: seq<string>, p: string)
    requires p in o.fields && forall i :: 0 <= i < |ks| ==> ks[i] in o.fields
    ensures EntryCount(o, ks + [p]) == EntryCount(o, ks) + |o.fields[p].keys|
  {
    assert (ks + [p])[..|ks|] == ks;
  }

  /** Adding a new (p, d) entry adds one to the entry count. */
  lemma AssignNewEntry(o: Nested, p: string, d: string, v: int)
    requires ValidNested(o) && !HasEntry(o, p, d)
    ensures Entries(Assign(o, p, d, v)) == Entries(o) + 1
  {
    if p in o.fields {
      AssignKnownPassport(o, p, d, v);
    } else {
      AssignNewPassport(o, p, d, v);
    }
  }

  lemma AssignKnownPassport(o: Nested, p: string, d: string, v: int)
    requires ValidNested(o) && p in o.fields && d !in o.fields[p].fields
    ensures Entries(Assign(o, p, d, v)) == Entries(o) + 1
  {
    var r := Assign(o, p, d, v);
    assert r.keys == o.keys;
    assert |r.fields[p].keys| == |o.fields[p].keys| + 1;
    EntryCountBump(o, r, o.keys, p);
  }

  lemma AssignNewPassport(o: Nested, p: string, d: string, v: int)
    requires ValidNested(o) && p !in o.fields
    ensures Entries(Assign(o, p, d, v)) == Entries(o) + 1
  {
    var r := Assign(o, p, d, v);
    assert r.keys == o.keys + [p] && r.fields == o.fields[p := r.fields[p]];
    EntryCountFrame(o, r, o.keys);
    EntryCountSnoc(r, o.keys, p);
  }

  /**
   * With no key twice among the rows, the files hold one entry per row:
   * `totalEntries` is then the sum of the inner objects' sizes.
   */
  lemma {:induction false} GroupedEntries(rows: seq<Row>, c: Column)
    requires UniqueKeys(rows)
    ensures ValidNested(Grouped(rows, c)) && Entries(Grouped(rows, c)) == |rows|
  {
    GroupedValid(rows, c);
    if rows != [] {
      var init, last := rows[..|rows| - 1], rows[|rows| - 1];
      GroupedEntries(init, c);
      GroupedLookup(init, c, last.passport, last.destination);
      AssignNewEntry(Grouped(init, c), last.passport, last.destination, Pick(last, c));
    }
  }
}
