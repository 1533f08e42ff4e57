/**
 * The seeder: for every passport of `visaPolicy.json` it builds one row per
 * destination and upserts them into the `visa_policies` table 500 at a
 * time, counting the rows of every upsert that succeeded. A failed upsert
 * is reported and skipped; it stops neither the later batches nor the
 * later passports.
 *
 * The database is a `Table` value and the outcome of each upsert an oracle
 * `succeeds(passport, start)`, keyed by the passport and the index of the
 * batch's first row: a successful upsert writes its whole batch, a failed
 * one writes nothing.
 */
module Seeder {
  import opened JsValues
  import opened Slices
  import opened PolicyData

  const BatchSize := 500

  /** One upsert request: the passport, the offset `i` of the batch in its rows, and the batch. */
  datatype Attempt = Attempt(passport: string, start: nat, batch: seq<Row>)

  /** The upserts for one passport's rows: `rows.slice(i, i + 500)` for i = 0, 500, 1000, ... */
  function PassportAttempts(p: string, rows: seq<Row>): (atts: seq<Attempt>)
    ensures |atts| == CeilDiv(|rows|, BatchSize)
  {
    var bs := Batches(rows, BatchSize);
    seq(|bs|, k requires 0 <= k < |bs| => Attempt(p, k * BatchSize, bs[k]))
  }

  /** The upserts for the passports `ps`, one passport after the other. */
  function AttemptsOf(vp: Nested, vd: Nested, ps: seq<string>): seq<Attempt>
    requires ValidNested(vp) && forall i :: 0 <= i < |ps| ==> ps[i] in vp.fields
  {
    if ps == [] then []
    else
      var p := ps[|ps| - 1];
      AttemptsOf(vp, vd, ps[..|ps| - 1]) + PassportAttempts(p, PassportRows(vp, vd, p))
  }

  /** Every upsert the seeder sends, in order. */
  function Attempts(vp: Nested, vd: Nested): seq<Attempt>
    requires ValidNested(vp)
  {
    AttemptsOf(vp, vd, vp.keys)
  }

  /** The batches of the upserts, in order. */
  function BatchesOf(atts: seq<Attempt>): (bs: seq<seq<Row>>)
    ensures |bs| == |atts|
  {
    seq(|atts|, k requires 0 <= k < |atts| => atts[k].batch)
  }

  /** The rows of the upserts, in order. */
  function RowsIn(atts: seq<Attempt>): seq<Row> {
    Concat(BatchesOf(atts))
  }

  /** The upserts the oracle lets through, in order. */
  function Succeeded(atts: seq<Attempt>, succeeds: (string, nat) -> bool): (ok: seq<Attempt>)
    ensures |ok| <= |atts|
  {
    if atts == [] then []
    else
      var a := atts[|atts| - 1];
      Succeeded(atts[..|atts| - 1], succeeds) + (if succeeds(a.passport, a.start) then [a] else [])
  }

  /** The seeder's state: the `totalInserted` counter and the table. */
  datatype Progress = Progress(inserted: nat, table: Table)

  /** One upsert: on success the batch is written and counted, on error nothing changes. */
  function Step(o: Progress, a: Attempt, succeeds: (string, nat) -> bool): Progress {
    if succeeds(a.passport, a.start) then Progress(o.inserted + |a.batch|, UpsertAll(o.table, a.batch))
    else o
  }

  /** The upserts one after the other. */
  function Run(o: Progress, atts: seq<Attempt>, succeeds: (string, nat) -> bool): Progress {
    if atts == [] then o
    else Step(Run(o, atts[..|atts| - 1], succeeds), atts[|atts| - 1], succeeds)
  }

  /**
   * The script: nothing happens without the database URL and key; otherwise
   * the loop over passports and, inside it, the loop over 500-row batches.
   */
  method Seed(url: Option<string>, key: Option<string>, visaPolicy: Nested, visaDuration: Nested,
              initial: Table, succeeds: (string, nat) -> bool)
    returns (started: bool, totalInserted: nat, table: Table)
    requires ValidNested(visaPolicy)
    ensures started <==> Truthy(url) && Truthy(key)
    ensures !started ==> totalInserted == 0 && table == initial
    ensures started ==>
      Progress(totalInserted, table) == Run(Progress(0, initial), Attempts(visaPolicy, visaDuration), succeeds)
  {
    if !Truthy(url) || !Truthy(key) {
      return false, 0, initial;
    }
    started := true;
    totalInserted, table := 0, initial;
    var passports := visaPolicy.keys;
    for n := 0 to |passports|
      invariant Progress(totalInserted, table)
        == Run(Progress(0, initial), AttemptsOf(visaPolicy, visaDuration, passports[..n]), succeeds)
    {
      totalInserted, table := SeedNext(visaPolicy, visaDuration, n, initial, succeeds, totalInserted, table);
    }
    assert passports[..|passports|] == passports;
  }

  /** The body of the loop over passports: passport `n` is seeded after those before it. */
  method SeedNext(visaPolicy: Nested, visaDuration: Nested, n: nat, initial: Table,
                  succeeds: (string, nat) -> bool, inserted: nat, current: Table)
    returns (totalInserted: nat, table: Table)
    requires ValidNested(visaPolicy) && n < |visaPolicy.keys|
    requires Progress(inserted, current)
      == Run(Progress(0, initial), AttemptsOf(visaPolicy, visaDuration, visaPolicy.keys[..n]), succeeds)
    ensures Progress(totalInserted, table)
      == Run(Progress(0, initial), AttemptsOf(visaPolicy, visaDuration, visaPolicy.keys[..n + 1]), succeeds)
  {
    var passport := visaPolicy.keys[n];
    var rows := PassportRows(visaPolicy, visaDuration, passport);
    totalInserted, table := SeedPassport(passport, rows, succeeds, inserted, current);
    AttemptsOfStep(visaPolicy, visaDuration, visaPolicy.keys, n);
    RunAppend(Progress(0, initial), AttemptsOf(visaPolicy, visaDuration, visaPolicy.keys[..n]),
              PassportAttempts(passport, rows), succeeds);
  }

  /**
   * The loop over one passport's rows: `rows.slice(i, i + 500)` upserted
   * for i = 0, 500, ..., each success adding the batch's length to the
   * counter.
   */
  method SeedPassport(passport: string, rows: seq<Row>, succeeds: (string, nat) -> bool,
                      inserted: nat, initial: Table)
    returns (totalInserted: nat, table: Table)
    ensures Progress(totalInserted, table)
      == Run(Progress(inserted, initial), PassportAttempts(passport, rows), succeeds)
  {
    totalInserted, table := inserted, initial;
    ghost var mine := PassportAttempts(passport, rows);
    ghost var k := 0;
    var i := 0;
    while i < |rows|
      invariant 0 <= k <= |mine| && i == k * BatchSize
      invariant Progress(totalInserted, table) == Run(Progress(inserted, initial), mine[..k], succeeds)
      decreases |mine| - k
    {
      BelowCeil(|rows|, BatchSize, k);
      totalInserted, table := SeedBatch(passport, rows, i, succeeds, totalInserted, table);
      RunPrefix(Progress(inserted, initial), mine, k, succeeds);
      i, k := i + BatchSize, k + 1;
    }
    BelowCeil(|rows|, BatchSize, k);
    assert mine[..k] == mine;
  }

  /** One upsert of `rows.slice(i, i + 500)`: on success the rows are written and counted. */
  method SeedBatch(passport: string, rows: seq<Row>, i: nat, succeeds: (string, nat) -> bool,
                   inserted: nat, current: Table)
    returns (totalInserted: nat, table: Table)
    requires i < |rows| && i % BatchSize == 0
    ensures Progress(totalInserted, table)
      == Step(Progress(inserted, current), PassportAttempts(passport, rows)[i / BatchSize], succeeds)
  {
    totalInserted, table := inserted, current;
    var batch := Slice(rows, i, i + BatchSize);
    BelowCeil(|rows|, BatchSize, i / BatchSize);
    assert PassportAttempts(passport, rows)[i / BatchSize] == Attempt(passport, i, batch);
    if succeeds(passport, i) {
      table := UpsertAll(table, batch);
      totalInserted := totalInserted + |batch|;
    }
  }

  /** Running two lists of upserts one after the other. */
  lemma {:induction false} RunAppend(o: Progress, a: seq<Attempt>, b: seq<Attempt>, succeeds: (string, nat) -> bool)
    ensures Run(o, a + b, succeeds) == Run(Run(o, a, succeeds), b, succeeds)
  {
    if b == [] {
      assert a + b == a;
    } else {
      var init := b[..|b| - 1];
      RunAppend(o, a, init, succeeds);
      assert (a + b)[..|a + b| - 1] == a + init;
    }
  }

  lemma AttemptsOfStep(vp: Nested, vd: Nested, ps: seq<string>, n: nat)
    requires ValidNested(vp) && n < |ps| && forall i :: 0 <= i < |ps| ==> ps[i] in vp.fields
    ensures AttemptsOf(vp, vd, ps[..n + 1])
      == AttemptsOf(vp, vd, ps[..n]) + PassportAttempts(ps[n], PassportRows(vp, vd, ps[n]))
  {
    assert ps[..n + 1][..n] == ps[..n];
  }

  /** Running one more upsert of a list. */
  lemma RunPrefix(o: Progress, atts: seq<Attempt>, k: nat, succeeds: (string, nat) -> bool)
    requires k < |atts|
    ensures Run(o, atts[..k + 1], succeeds) == Step(Run(o, atts[..k], succeeds), atts[k], succeeds)
  {
    assert atts[..k + 1][..k] == atts[..k];
  }

  /**
   * The upserts of one passport cover its rows: laid end to end their
   * batches are the rows in order, each batch holds between 1 and 500 rows,
   * and each is sent for that passport.
   */
  lemma PassportAttemptsCover(p: string, rows: seq<Row>)
    ensures RowsIn(PassportAttempts(p, rows)) == rows
    ensures forall a :: a in PassportAttempts(p, rows) ==> a.passport == p && 0 < |a.batch| <= BatchSize
  {
    BatchesPartition(rows, BatchSize);
    assert BatchesOf(PassportAttempts(p, rows)) == Batches(rows, BatchSize);
  }

  lemma {:induction false} AttemptsOfCover(vp: Nested, vd: Nested, ps: seq<string>)
    requires ValidNested(vp) && forall i :: 0 <= i < |ps| ==> ps[i] in vp.fields
    ensures RowsIn(AttemptsOf(vp, vd, ps)) == RowsOf(vp, vd, ps)
    ensures forall a :: a in AttemptsOf(vp, vd, ps) ==> a.passport in ps && 0 < |a.batch| <= BatchSize
  {
    AttemptsOfRows(vp, vd, ps);
    AttemptsOfBatches(vp, vd, ps);
  }

  lemma {:induction false} AttemptsOfRows(vp: Nested, vd: Nested, ps: seq<string>)
    requires ValidNested(vp) && forall i :: 0 <= i < |ps| ==> ps[i] in vp.fields
    ensures RowsIn(AttemptsOf(vp, vd, ps)) == RowsOf(vp, vd, ps)
  {
    if ps != [] {
      var init, p := ps[..|ps| - 1], ps[|ps| - 1];
      var mine := PassportAttempts(p, PassportRows(vp, vd, p));
      AttemptsOfRows(vp, vd, init);
      PassportAttemptsCover(p, PassportRows(vp, vd, p));
      RowsInAppend(AttemptsOf(vp, vd, init), mine);
    }
  }

  lemma {:induction false} AttemptsOfBatches(vp: Nested, vd: Nested, ps: seq<string>)
    requires ValidNested(vp) && forall i :: 0 <= i < |ps| ==> ps[i] in vp.fields
    ensures forall a :: a in AttemptsOf(vp, vd, ps) ==> a.passport in ps && 0 < |a.batch| <= BatchSize
  {
    if ps != [] {
      var init, p := ps[..|ps| - 1], ps[|ps| - 1];
      var before, mine := AttemptsOf(vp, vd, init), PassportAttempts(p, PassportRows(vp, vd, p));
      AttemptsOfBatches(vp, vd, init);
      PassportAttemptsCover(p, PassportRows(vp, vd, p));
      forall a: Attempt | a in before + mine ensures a.passport in ps && 0 < |a.batch| <= BatchSize {
        if a in before {
          assert a.passport in init;
        }
      }
    }
  }

  lemma RowsInAppend(a: seq<Attempt>, b: seq<Attempt>)
    ensures RowsIn(a + b) == RowsIn(a) + RowsIn(b)
  {
    assert BatchesOf(a + b) == BatchesOf(a) + BatchesOf(b);
    ConcatAppend(BatchesOf(a), BatchesOf(b));
  }

  /**
   * The upserts partition the rows the lookup files describe: laid end to
   * end, their batches are every row, each batch holds between 1 and 500
   * rows.
   */
  lemma AttemptsCover(vp: Nested, vd: Nested)
    requires ValidNested(vp)
    ensures RowsIn(Attempts(vp, vd)) == AllRows(vp, vd)
    ensures forall a :: a in Attempts(vp, vd) ==> a.passport in vp.fields && 0 < |a.batch| <= BatchSize
  {
    AttemptsOfCover(vp, vd, vp.keys);
  }

  lemma RowsInSnoc(atts: seq<Attempt>, a: Attempt)
    ensures RowsIn(atts + [a]) == RowsIn(atts) + a.batch
  {
    assert BatchesOf(atts + [a]) == BatchesOf(atts) + [a.batch];
    ConcatAppend(BatchesOf(atts), [a.batch]);
    assert Concat([a.batch]) == [] + a.batch;
  }

  /**
   * After any sequence of upserts, the counter has grown by the number of
   * rows of the successful ones, and the table is the old one with exactly
   * those rows upserted in order: a failed upsert leaves no trace, and the
   * ones after it still happen.
   */
  lemma {:induction false} RunIsSucceeded(o: Progress, atts: seq<Attempt>, succeeds: (string, nat) -> bool)
    ensures Run(o, atts, succeeds).inserted == o.inserted + |RowsIn(Succeeded(atts, succeeds))|
    ensures Run(o, atts, succeeds).table == UpsertAll(o.table, RowsIn(Succeeded(atts, succeeds)))
  {
    if atts != [] {
      var init, a := atts[..|atts| - 1], atts[|atts| - 1];
      RunIsSucceeded(o, init, succeeds);
      var ok := Succeeded(init, succeeds);
      if succeeds(a.passport, a.start) {
        RowsInSnoc(ok, a);
        UpsertAllAppend(o.table, RowsIn(ok), a.batch);
      } else {
        assert ok + [] == ok;
      }
    }
  }

  /**
   * Counting rows: the successful upserts never hold more rows than all of
   * them, and, when no batch is empty, exactly as many if and only if every
   * upsert succeeded.
   */
  lemma {:induction false} SucceededRows(atts: seq<Attempt>, succeeds: (string, nat) -> bool)
    requires forall k :: 0 <= k < |atts| ==> |atts[k].batch| > 0
    ensures |RowsIn(Succeeded(atts, succeeds))| <= |RowsIn(atts)|
    ensures |RowsIn(Succeeded(atts, succeeds))| == |RowsIn(atts)|
      <==> forall k :: 0 <= k < |atts| ==> succeeds(atts[k].passport, atts[k].start)
  {
    if atts != [] {
      var init, a := atts[..|atts| - 1], atts[|atts| - 1];
      SucceededRows(init, succeeds);
      var ok := Succeeded(init, succeeds);
      InitLast(atts);
      RowsInSnoc(init, a);
      if succeeds(a.passport, a.start) {
        RowsInSnoc(ok, a);
      } else {
        assert ok + [] == ok;
      }
    }
  }

  /**
   * The seeder's report: `totalInserted` never exceeds the number of
   * (passport, destination) entries of `visaPolicy.json`, and equals it if
   * and only if no upsert failed; then the table is the old one with every
   * row upserted, in order.
   */
  lemma SeedTotals(vp: Nested, vd: Nested, initial: Table, succeeds: (string, nat) -> bool)
    requires ValidNested(vp)
    ensures Run(Progress(0, initial), Attempts(vp, vd), succeeds).inserted <= Entries(vp)
    ensures Run(Progress(0, initial), Attempts(vp, vd), succeeds).inserted == Entries(vp)
      <==> forall a :: a in Attempts(vp, vd) ==> succeeds(a.passport, a.start)
    ensures (forall a :: a in Attempts(vp, vd) ==> succeeds(a.passport, a.start))
      ==> Run(Progress(0, initial), Attempts(vp, vd), succeeds).table == UpsertAll(initial, AllRows(vp, vd))
  {
    SeedInserted(vp, vd, initial, succeeds);
    if forall a :: a in Attempts(vp, vd) ==> succeeds(a.passport, a.start) {
      SeedAllRows(vp, vd, initial, succeeds);
    }
  }

  lemma SeedInserted(vp: Nested, vd: Nested, initial: Table, succeeds: (string, nat) -> bool)
    requires ValidNested(vp)
    ensures Run(Progress(0, initial), Attempts(vp, vd), succeeds).inserted <= Entries(vp)
    ensures Run(Progress(0, initial), Attempts(vp, vd), succeeds).inserted == Entries(vp)
      <==> forall a :: a in Attempts(vp, vd) ==> succeeds(a.passport, a.start)
  {
    var atts := Attempts(vp, vd);
    AttemptsCover(vp, vd);
    AllRowsExact(vp, vd);
    RunIsSucceeded(Progress(0, initial), atts, succeeds);
    SucceededRows(atts, succeeds);
    assert (forall a :: a in atts ==> succeeds(a.passport, a.start))
      <==> forall k :: 0 <= k < |atts| ==> succeeds(atts[k].passport, atts[k].start);
  }

  lemma SeedAllRows(vp: Nested, vd: Nested, initial: Table, succeeds: (string, nat) -> bool)
    requires ValidNested(vp)
    requires forall a :: a in Attempts(vp, vd) ==> succeeds(a.passport, a.start)
    ensures Run(Progress(0, initial), Attempts(vp, vd), succeeds).table == UpsertAll(initial, AllRows(vp, vd))
  {
    var atts := Attempts(vp, vd);
    AttemptsCover(vp, vd);
    RunIsSucceeded(Progress(0, initial), atts, succeeds);
    assert forall k :: 0 <= k < |atts| ==> atts[k] in atts;
    AllSucceeded(atts, succeeds);
  }

  /** When the oracle lets every upsert through, the successful ones are all of them. */
  lemma {:induction false} AllSucceeded(atts: seq<Attempt>, succeeds: (string, nat) -> bool)
    requires forall k :: 0 <= k < |atts| ==> succeeds(atts[k].passport, atts[k].start)
    ensures Succeeded(atts, succeeds) == atts
  {
    if atts != [] {
      var init, last := atts[..|atts| - 1], atts[|atts| - 1];
      assert forall k :: 0 <= k < |init| ==> init[k] == atts[k];
      AllSucceeded(init, succeeds);
      InitLast(atts);
    }
  }
}
