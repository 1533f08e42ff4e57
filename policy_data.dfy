/**
 * The data the pipeline moves around: rows of the `visa_policies` table,
 * the table itself keyed on (passport, destination), and the two JSON
 * lookup files `visaPolicy.json` and `visaDuration.json`, each an object
 * from passport to an object from destination to an integer.
 */
module PolicyData {
  import opened JsValues

  /** One row of the `visa_policies` table. */
  datatype Row = Row(passport: string, destination: string, policy: int, duration: int) {
    function Key(): (string, string) { (passport, destination) }
    function Value(): (int, int) { (policy, duration) }
  }

  /** The table, keyed on (passport, destination), holding (policy, duration). */
  type Table = map<(string, string), (int, int)>

  /** An upsert on the (passport, destination) key: insert, or replace policy and duration. */
  function Upsert(t: Table, r: Row): Table {
    t[r.Key() := r.Value()]
  }

  /** Upserting the rows one after the other. */
  function UpsertAll(t: Table, rows: seq<Row>): Table
    decreases |rows|
  {
    if rows == [] then t else UpsertAll(Upsert(t, rows[0]), rows[1..])
  }

  /** Upserting two lists one after the other is upserting their concatenation. */
  lemma {:induction false} UpsertAllAppend(t: Table, a: seq<Row>, b: seq<Row>)
    ensures UpsertAll(t, a + b) == UpsertAll(UpsertAll(t, a), b)
    decreases |a|
  {
    if a != [] {
      assert (a + b)[1..] == a[1..] + b;
      UpsertAllAppend(Upsert(t, a[0]), a[1..], b);
    } else {
      assert a + b == b;
    }
  }

  /** The keys the rows name. */
  function KeysOf(rows: seq<Row>): set<(string, string)> {
    set r | r in rows :: r.Key()
  }

  /**
   * Upserting rows with distinct keys: the table gains exactly their keys,
   * each of them holds its row's values, and every other key keeps its
   * old values.
   */
  lemma UpsertAllUnique(t: Table, rows: seq<Row>)
    requires UniqueKeys(rows)
    ensures UpsertAll(t, rows).Keys == t.Keys + KeysOf(rows)
    ensures forall r :: r in rows ==> UpsertAll(t, rows)[r.Key()] == r.Value()
    ensures forall k :: k in t && k !in KeysOf(rows) ==> UpsertAll(t, rows)[k] == t[k]
  {
    UpsertAllKeys(t, rows);
    UpsertAllValues(t, rows);
    UpsertAllOthers(t, rows);
  }

  /** Upserting gives the table exactly the keys it had and the keys of the rows. */
  lemma {:induction false} UpsertAllKeys(t: Table, rows: seq<Row>)
    ensures UpsertAll(t, rows).Keys == t.Keys + KeysOf(rows)
    decreases |rows|
  {
    if rows != [] {
      UpsertAllKeys(Upsert(t, rows[0]), rows[1..]);
      KeysOfCons(rows);
    }
  }

  /** Upserting leaves the keys the rows do not name as they were. */
  lemma {:induction false} UpsertAllOthers(t: Table, rows: seq<Row>)
    ensures forall k :: k in t && k !in KeysOf(rows) ==> k in UpsertAll(t, rows) && UpsertAll(t, rows)[k] == t[k]
    decreases |rows|
  {
    if rows != [] {
      UpsertAllOthers(Upsert(t, rows[0]), rows[1..]);
      KeysOfCons(rows);
    }
  }

  /** Upserting rows with distinct keys leaves each key with its row's values. */
  lemma {:induction false} UpsertAllValues(t: Table, rows: seq<Row>)
    requires UniqueKeys(rows)
    ensures forall r :: r in rows ==> r.Key() in UpsertAll(t, rows) && UpsertAll(t, rows)[r.Key()] == r.Value()
    decreases |rows|
  {
    if rows != [] {
      var t', rest := Upsert(t, rows[0]), rows[1..];
      UpsertAllValues(t', rest);
      UpsertAllOthers(t', rest);
      assert rows[0].Key() !in KeysOf(rest) by {
        forall r | r in rest ensures r.Key() != rows[0].Key() {
          var j :| 0 <= j < |rest| && rest[j] == r;
          assert rows[j + 1] == r;
        }
      }
      forall r | r in rows ensures r.Key() in UpsertAll(t, rows) && UpsertAll(t, rows)[r.Key()] == r.Value() {
        if r != rows[0] {
          var j :| 0 <= j < |rows| && rows[j] == r;
          assert rest[j - 1] == r;
        }
      }
    }
  }

  lemma KeysOfCons(rows: seq<Row>)
    requires rows != []
    ensures KeysOf(rows) == {rows[0].Key()} + KeysOf(rows[1..])
  {
    assert forall r :: r in rows <==> r == rows[0] || r in rows[1..];
  }

  /** A JSON lookup file: passport -> destination -> integer. */
  type Nested = Obj<Obj<int>>

  /** `p` has an entry for `d`. */
  predicate HasEntry(o: Nested, p: string, d: string) {
    p in o.fields && d in o.fields[p].fields
  }

  /**
   * `(visaDuration[p] && visaDuration[p][d]) || 0`: the duration file's
   * value, or 0 when the passport or the destination is missing.
   */
  function DurationOf(vd: Nested, p: string, d: string): (n: int)
    ensures HasEntry(vd, p, d) ==> n == vd.fields[p].fields[d]
    ensures !HasEntry(vd, p, d) ==> n == 0
  {
    if p in vd.fields && d in vd.fields[p].fields && vd.fields[p].fields[d] != 0
    then vd.fields[p].fields[d]
    else 0
  }

  /**
   * The rows built for one passport, one per destination of
   * `visaPolicy[p]` in enumeration order.
   */
  function PassportRows(vp: Nested, vd: Nested, p: string): (rows: seq<Row>)
    requires ValidNested(vp) && p in vp.fields
    ensures |rows| == |vp.fields[p].keys|
  {
    var inner := vp.fields[p];
    seq(|inner.keys|, i requires 0 <= i < |inner.keys| =>
      Row(p, inner.keys[i], inner.fields[inner.keys[i]], DurationOf(vd, p, inner.keys[i])))
  }

  /** The rows of the passports `ps`, one passport after the other. */
  function RowsOf(vp: Nested, vd: Nested, ps: seq<string>): seq<Row>
    requires ValidNested(vp) && forall i :: 0 <= i < |ps| ==> ps[i] in vp.fields
  {
    if ps == [] then []
    else RowsOf(vp, vd, ps[..|ps| - 1]) + PassportRows(vp, vd, ps[|ps| - 1])
  }

  /** Every row the two lookup files describe, passports and destinations in enumeration order. */
  function AllRows(vp: Nested, vd: Nested): seq<Row>
    requires ValidNested(vp)
  {
    RowsOf(vp, vd, vp.keys)
  }

  /** The number of destinations listed under the passports `ps`. */
  function EntryCount(o: Nested, ps: seq<string>): nat
    requires forall i :: 0 <= i < |ps| ==> ps[i] in o.fields
  {
    if ps == [] then 0
    else EntryCount(o, ps[..|ps| - 1]) + |o.fields[ps[|ps| - 1]].keys|
  }

  /** The number of (passport, destination) entries of a lookup file. */
  function Entries(o: Nested): nat
    requires o.Valid()
  {
    EntryCount(o, o.keys)
  }

  /** The row describes what the lookup files say about its key. */
  predicate Describes(vp: Nested, vd: Nested, r: Row) {
    && HasEntry(vp, r.passport, r.destination)
    && r.policy == vp.fields[r.passport].fields[r.destination]
    && r.duration == DurationOf(vd, r.passport, r.destination)
  }

  /** No two rows share a (passport, destination) key. */
  predicate UniqueKeys(rows: seq<Row>) {
    forall i, j :: 0 <= i < j < |rows| ==> rows[i].Key() != rows[j].Key()
  }

  lemma RowsOfShape(vp: Nested, vd: Nested, ps: seq<string>)
    requires ValidNested(vp) && Distinct(ps)
    requires forall i :: 0 <= i < |ps| ==> ps[i] in vp.fields
    ensures |RowsOf(vp, vd, ps)| == EntryCount(vp, ps)
    ensures UniqueKeys(RowsOf(vp, vd, ps))
    ensures forall r :: r in RowsOf(vp, vd, ps) <==> r.passport in ps && Describes(vp, vd, r)
  {
    RowsOfCount(vp, vd, ps);
    RowsOfMembers(vp, vd, ps);
    RowsOfUnique(vp, vd, ps);
  }

  lemma {:induction false} RowsOfCount(vp: Nested, vd: Nested, ps: seq<string>)
    requires ValidNested(vp) && forall i :: 0 <= i < |ps| ==> ps[i] in vp.fields
    ensures |RowsOf(vp, vd, ps)| == EntryCount(vp, ps)
  {
    if ps != [] {
      RowsOfCount(vp, vd, ps[..|ps| - 1]);
    }
  }

  /** The rows of one passport are exactly the rows that describe one of its entries. */
  lemma PassportRowsMembers(vp: Nested, vd: Nested, p: string)
    requires ValidNested(vp) && p in vp.fields
    ensures forall r :: r in PassportRows(vp, vd, p) <==> r.passport == p && Describes(vp, vd, r)
  {
    var b, inner := PassportRows(vp, vd, p), vp.fields[p];
    forall r: Row | r.passport == p && Describes(vp, vd, r) ensures r in b {
      var i :| 0 <= i < |inner.keys| && inner.keys[i] == r.destination;
      assert b[i] == r;
    }
  }

  lemma {:induction false} RowsOfMembers(vp: Nested, vd: Nested, ps: seq<string>)
    requires ValidNested(vp) && forall i :: 0 <= i < |ps| ==> ps[i] in vp.fields
    ensures forall r :: r in RowsOf(vp, vd, ps) <==> r.passport in ps && Describes(vp, vd, r)
  {
    if ps != [] {
      var init, p := ps[..|ps| - 1], ps[|ps| - 1];
      RowsOfMembers(vp, vd, init);
      PassportRowsMembers(vp, vd, p);
      assert forall q :: q in ps <==> q in init || q == p;
    }
  }

  lemma {:induction false} RowsOfUnique(vp: Nested, vd: Nested, ps: seq<string>)
    requires ValidNested(vp) && Distinct(ps)
    requires forall i :: 0 <= i < |ps| ==> ps[i] in vp.fields
    ensures UniqueKeys(RowsOf(vp, vd, ps))
  {
    if ps != [] {
      var init, p := ps[..|ps| - 1], ps[|ps| - 1];
      RowsOfUnique(vp, vd, init);
      RowsOfMembers(vp, vd, init);
      var a: seq<Row>, b: seq<Row> := RowsOf(vp, vd, init), PassportRows(vp, vd, p);
      var inner := vp.fields[p];
      assert p !in init;
      forall i: int, j: int | 0 <= i < j < |a + b| ensures (a + b)[i].Key() != (a + b)[j].Key() {
        if j >= |a| && i < |a| {
          assert (a + b)[i] in a;
          assert (a + b)[j] == b[j - |a|];
        }
        if i >= |a| {
          assert b[i - |a|].destination == inner.keys[i - |a|];
        }
      }
    }
  }

  /**
   * The rows built from the lookup files are exactly the (passport,
   * destination) entries of `visaPolicy`, each once, with its policy and the
   * defaulted duration: as many rows as entries, no key twice, and a row is
   * among them if and only if it describes an entry.
   */
  lemma AllRowsExact(vp: Nested, vd: Nested)
    requires ValidNested(vp)
    ensures |AllRows(vp, vd)| == Entries(vp)
    ensures UniqueKeys(AllRows(vp, vd))
    ensures forall r :: r in AllRows(vp, vd) <==> Describes(vp, vd, r)
  {
    RowsOfShape(vp, vd, vp.keys);
  }
}
