/**
 * The pipeline end to end: the lookup files are seeded into the table, the
 * table is listed, and the listing is published back into lookup files.
 */
module Pipeline {
  import opened JsValues
  import opened PolicyData
  import opened Http
  import Publish
  import Gateway
  import Seeder

  /** `rows` lists the table: one row per key, carrying that key's values, and nothing else. */
  ghost predicate Lists(rows: seq<Row>, t: Table) {
    && UniqueKeys(rows)
    && forall r :: r in rows <==> r.Key() in t && t[r.Key()] == r.Value()
  }

  /** Every row of an unfiltered GET is a row of the table, and every row of the table is one. */
  lemma SelectedAll(t: Table)
    ensures forall r :: r in Gateway.Selected(t, None, None) <==> r.Key() in t && t[r.Key()] == r.Value()
  {
    forall r: Row | r.Key() in t && t[r.Key()] == r.Value() ensures r in Gateway.Selected(t, None, None) {
      assert Gateway.RowAt(t, r.Key()) == r;
    }
  }

  /** A listing has as many rows as the table has keys. */
  lemma ListingCount(rows: seq<Row>, t: Table)
    requires Lists(rows, t)
    ensures |rows| == |t|
  {
    var keys := seq(|rows|, i requires 0 <= i < |rows| => rows[i].Key());
    DistinctCard(keys);
    forall k | k in t ensures k in keys {
      var r := Row(k.0, k.1, t[k].0, t[k].1);
      assert r in rows;
      var i :| 0 <= i < |rows| && rows[i] == r;
      assert keys[i] == k;
    }
    assert (set k | k in keys) == t.Keys;
  }

  /**
   * Publishing a listing of the table gives files that agree with the
   * table: an entry for (p, d) exactly when the table has that key,
   * holding its policy and duration, and as many entries as the table has
   * rows.
   */
  lemma PublishedMatchesTable(rows: seq<Row>, t: Table)
    requires Lists(rows, t)
    ensures forall p, d :: HasEntry(Publish.Grouped(rows, Publish.PolicyColumn), p, d) <==> (p, d) in t
    ensures forall p, d :: HasEntry(Publish.Grouped(rows, Publish.DurationColumn), p, d) <==> (p, d) in t
    ensures forall p, d :: (p, d) in t ==>
      && HasEntry(Publish.Grouped(rows, Publish.PolicyColumn), p, d)
      && HasEntry(Publish.Grouped(rows, Publish.DurationColumn), p, d)
      && Publish.Grouped(rows, Publish.PolicyColumn).fields[p].fields[d] == t[(p, d)].0
      && Publish.Grouped(rows, Publish.DurationColumn).fields[p].fields[d] == t[(p, d)].1
    ensures ValidNested(Publish.Grouped(rows, Publish.PolicyColumn))
    ensures Entries(Publish.Grouped(rows, Publish.PolicyColumn)) == |t|
    ensures forall p :: p in Publish.Passports(rows) <==> exists d :: (p, d) in t
  {
    forall p, d ensures HasEntry(Publish.Grouped(rows, Publish.PolicyColumn), p, d) <==> (p, d) in t
      ensures HasEntry(Publish.Grouped(rows, Publish.DurationColumn), p, d) <==> (p, d) in t
      ensures (p, d) in t ==>
        && HasEntry(Publish.Grouped(rows, Publish.PolicyColumn), p, d)
        && HasEntry(Publish.Grouped(rows, Publish.DurationColumn), p, d)
        && Publish.Grouped(rows, Publish.PolicyColumn).fields[p].fields[d] == t[(p, d)].0
        && Publish.Grouped(rows, Publish.DurationColumn).fields[p].fields[d] == t[(p, d)].1
    {
      PublishedKey(rows, t, Publish.PolicyColumn, p, d);
      PublishedKey(rows, t, Publish.DurationColumn, p, d);
    }
    Publish.GroupedEntries(rows, Publish.PolicyColumn);
    ListingCount(rows, t);
    PublishedPassports(rows, t);
  }

  /** One key of the table, looked up in one published file. */
  lemma PublishedKey(rows: seq<Row>, t: Table, c: Publish.Column, p: string, d: string)
    requires Lists(rows, t)
    ensures HasEntry(Publish.Grouped(rows, c), p, d) <==> (p, d) in t
    ensures (p, d) in t ==>
      Publish.Grouped(rows, c).fields[p].fields[d] == Publish.Pick(Row(p, d, t[(p, d)].0, t[(p, d)].1), c)
  {
    if (p, d) in t {
      var r := Row(p, d, t[(p, d)].0, t[(p, d)].1);
      assert r in rows;
      var i :| 0 <= i < |rows| && rows[i] == r;
      Publish.GroupedHoldsEveryRow(rows, c, i);
    } else {
      Publish.GroupedEntry(rows, c, p, d);
    }
  }

  /** The passports of a listing are the passports of the table's keys. */
  lemma PublishedPassports(rows: seq<Row>, t: Table)
    requires Lists(rows, t)
    ensures forall p :: p in Publish.Passports(rows) <==> exists d :: (p, d) in t
  {
    forall p ensures p in Publish.Passports(rows) <==> exists d :: (p, d) in t {
      if exists d :: (p, d) in t {
        var d :| (p, d) in t;
        assert Row(p, d, t[(p, d)].0, t[(p, d)].1) in rows;
      }
    }
  }

  /**
   * The table the seeder leaves behind when it starts from an empty table
   * and no upsert fails: one key per entry of `visaPolicy.json`, holding
   * its policy and its duration with the default of 0.
   */
  lemma SeededTable(vp: Nested, vd: Nested)
    requires ValidNested(vp)
    ensures forall p, d :: (p, d) in UpsertAll(map[], AllRows(vp, vd)) <==> HasEntry(vp, p, d)
    ensures forall p, d :: HasEntry(vp, p, d) ==>
      UpsertAll(map[], AllRows(vp, vd))[(p, d)] == (vp.fields[p].fields[d], DurationOf(vd, p, d))
  {
    var rows := AllRows(vp, vd);
    AllRowsExact(vp, vd);
    UpsertAllUnique(map[], rows);
    forall p, d | HasEntry(vp, p, d)
      ensures (p, d) in UpsertAll(map[], rows)
      ensures UpsertAll(map[], rows)[(p, d)] == (vp.fields[p].fields[d], DurationOf(vd, p, d))
    {
      assert Row(p, d, vp.fields[p].fields[d], DurationOf(vd, p, d)) in rows;
    }
  }

  /** The passports of a lookup file that list at least one destination. */
  function NonEmptyPassports(vp: Nested): set<string> {
    set p | p in vp.fields && vp.fields[p].fields != map[]
  }

  /**
   * Seeding an empty table with every upsert succeeding, then publishing:
   * the published `visaPolicy.json` has exactly the entries of the one that
   * was seeded, with the same policies, and the published
   * `visaDuration.json` has, for each of them, the seeded duration or 0.
   * The answer counts the passports with at least one destination (one
   * with none does not come back) and every entry; a file with no entries
   * at all gets 400 and nothing is written.
   */
  method SeedAndPublish(vp: Nested, vd: Nested, url: string, key: string, secret: string)
    returns (resp: Response, written: Option<Publish.Artifacts>)
    requires ValidNested(vp) && url != "" && key != "" && secret != ""
    ensures Entries(vp) == 0 ==> resp == Response(BadRequest, Error(Publish.NoDataMessage)) && written == None
    ensures Entries(vp) > 0 ==>
      && resp == Response(Ok, Counts(|NonEmptyPassports(vp)|, Entries(vp)))
      && written.Some?
      && (forall p, d :: HasEntry(written.value.visaPolicy, p, d) <==> HasEntry(vp, p, d))
      && (forall p, d :: HasEntry(written.value.visaDuration, p, d) <==> HasEntry(vp, p, d))
      && (forall p, d :: HasEntry(vp, p, d) ==>
            && written.value.visaPolicy.fields[p].fields[d] == vp.fields[p].fields[d]
            && written.value.visaDuration.fields[p].fields[d] == DurationOf(vd, p, d))
  {
    var started, inserted, table := Seeder.Seed(Some(url), Some(key), vp, vd, map[], (p, i) => true);
    Seeder.SeedTotals(vp, vd, map[], (p, i) => true);
    var store := new Gateway.PolicyStore(table);
    var rows := store.List(None, None);
    SelectedAll(table);
    PublishSeeded(vp, vd, rows);
    resp, written := Publish.Handle("POST", Some(secret), Some(secret), Publish.Fetched(rows));
  }

  /** What publishing a listing of the seeded table gives, entry by entry. */
  lemma PublishSeeded(vp: Nested, vd: Nested, rows: seq<Row>)
    requires ValidNested(vp) && Lists(rows, UpsertAll(map[], AllRows(vp, vd)))
    ensures |rows| == Entries(vp)
    ensures Publish.Passports(rows) == NonEmptyPassports(vp)
    ensures forall p, d :: HasEntry(Publish.Grouped(rows, Publish.PolicyColumn), p, d) <==> HasEntry(vp, p, d)
    ensures forall p, d :: HasEntry(Publish.Grouped(rows, Publish.DurationColumn), p, d) <==> HasEntry(vp, p, d)
    ensures forall p, d :: HasEntry(vp, p, d) ==>
      && HasEntry(Publish.Grouped(rows, Publish.PolicyColumn), p, d)
      && HasEntry(Publish.Grouped(rows, Publish.DurationColumn), p, d)
      && Publish.Grouped(rows, Publish.PolicyColumn).fields[p].fields[d] == vp.fields[p].fields[d]
      && Publish.Grouped(rows, Publish.DurationColumn).fields[p].fields[d] == DurationOf(vd, p, d)
  {
    var table := UpsertAll(map[], AllRows(vp, vd));
    SeededTable(vp, vd);
    PublishedMatchesTable(rows, table);
    ListingCount(rows, table);
    SeededCount(vp, vd);
    SeededPassports(vp, vd, rows, table);
  }

  lemma SeededPassports(vp: Nested, vd: Nested, rows: seq<Row>, table: Table)
    requires ValidNested(vp)
    requires forall p :: p in Publish.Passports(rows) <==> exists d :: (p, d) in table
    requires forall p, d :: (p, d) in table <==> HasEntry(vp, p, d)
    ensures Publish.Passports(rows) == NonEmptyPassports(vp)
  {
    forall p ensures p in Publish.Passports(rows) <==> p in NonEmptyPassports(vp) {
      if p in NonEmptyPassports(vp) {
        var d :| d in vp.fields[p].fields;
        assert (p, d) in table;
      }
    }
  }

  /** The seeded table has one key per entry of `visaPolicy.json`. */
  lemma SeededCount(vp: Nested, vd: Nested)
    requires ValidNested(vp)
    ensures |UpsertAll(map[], AllRows(vp, vd))| == Entries(vp)
  {
    var rows := AllRows(vp, vd);
    var t := UpsertAll(map[], rows);
    AllRowsExact(vp, vd);
    UpsertAllUnique(map[], rows);
    assert Lists(rows, t) by {
      forall r: Row | r.Key() in t && t[r.Key()] == r.Value() ensures r in rows {
        var q :| q in rows && q.Key() == r.Key();
        assert q.Value() == r.Value();
        assert q == r;
      }
    }
    ListingCount(rows, t);
  }
}
