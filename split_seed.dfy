/**
 * The seed splitter: the seed file is cut into statements at every blank
 * line (`"\n\n"`), blank pieces are dropped, and the statements are dealt
 * into exactly six parts of at most ceil(n/6) statements each, the last
 * ones possibly shorter or empty. Each part is written as its statements joined
 * by blank lines, with a final newline.
 */
module SplitSeed {
  import opened JsValues
  import opened Slices

  const Separator := "\n\n"
  const PartCount := 6

  /** `s` has two newlines in a row at position `i`. */
  predicate BreakAt(s: string, i: int) {
    0 <= i < |s| - 1 && s[i] == '\n' && s[i + 1] == '\n'
  }

  /** No two newlines in a row anywhere in `s`. */
  predicate NoBreak(s: string) {
    forall i :: 0 <= i < |s| - 1 ==> !BreakAt(s, i)
  }

  /**
   * `s.split(/\n\n/)`: scanning from the left, every occurrence of two
   * newlines ends the current piece; the pieces between them are kept,
   * empty ones included, and there is always at least one piece.
   */
  function SplitOn(s: string): (parts: seq<string>)
    ensures |parts| >= 1
    ensures |parts[0]| <= |s| && parts[0] == s[..|parts[0]|]
    decreases |s|
  {
    if |s| < 2 then [s]
    else if BreakAt(s, 0) then [""] + SplitOn(s[2..])
    else
      var rest := SplitOn(s[1..]);
      [[s[0]] + rest[0]] + rest[1..]
  }

  /** Joining the pieces with the separator gives the text back. */
  lemma {:induction false} SplitOnJoin(s: string)
    ensures Join(SplitOn(s), Separator) == s
    decreases |s|
  {
    if |s| >= 2 {
      if BreakAt(s, 0) {
        SplitOnJoin(s[2..]);
        assert s == "\n\n" + s[2..];
      } else {
        var rest := SplitOn(s[1..]);
        SplitOnJoin(s[1..]);
        var parts := [[s[0]] + rest[0]] + rest[1..];
        assert parts[1..] == rest[1..];
        if |rest| == 1 {
          assert [s[0]] + s[1..] == s;
        } else {
          assert Join(rest, Separator) == rest[0] + Separator + Join(rest[1..], Separator);
          assert [s[0]] + s[1..] == s;
        }
      }
    }
  }

  /**
   * The leftmost occurrence is cut, as `String.prototype.split` scans from
   * the left: the first piece contains no separator and, when there is
   * more than one piece, it ends where the first separator of the text
   * starts. `SplitOnRest` says what the other pieces are.
   */
  lemma {:induction false} SplitOnLeftmost(s: string)
    ensures forall i :: 0 <= i < |SplitOn(s)[0]| ==> !BreakAt(s, i)
    ensures |SplitOn(s)| > 1 ==> BreakAt(s, |SplitOn(s)[0]|)
    decreases |s|
  {
    if |s| >= 2 && !BreakAt(s, 0) {
      var rest := SplitOn(s[1..]);
      SplitOnLeftmost(s[1..]);
      forall i | 0 < i < |SplitOn(s)[0]| ensures !BreakAt(s, i) {
        assert BreakAt(s, i) == BreakAt(s[1..], i - 1);
      }
      if |SplitOn(s)| > 1 {
        assert BreakAt(s[1..], |rest[0]|);
      }
    }
  }

  /**
   * After the first piece and its separator, the split starts over: the
   * other pieces are the split of the rest of the text. With
   * `SplitOnLeftmost` this determines every piece, one separator at a time.
   */
  lemma {:induction false} SplitOnRest(s: string)
    ensures |SplitOn(s)| > 1 ==>
      |SplitOn(s)[0]| + 2 <= |s| && SplitOn(s)[1..] == SplitOn(s[|SplitOn(s)[0]| + 2..])
    decreases |s|
  {
    SplitOnLeftmost(s);
    if |s| >= 2 && BreakAt(s, 0) {
      assert SplitOn(s)[1..] == SplitOn(s[2..]);
    } else if |s| >= 2 {
      var rest := SplitOn(s[1..]);
      SplitOnRest(s[1..]);
      if |SplitOn(s)| > 1 {
        assert SplitOn(s)[1..] == rest[1..];
        assert s[1..][|rest[0]| + 2..] == s[|rest[0]| + 3..];
      }
    }
  }

  /** No piece contains two newlines in a row: every separator was cut. */
  lemma {:induction false} SplitOnNoBreak(s: string)
    ensures forall k :: 0 <= k < |SplitOn(s)| ==> NoBreak(SplitOn(s)[k])
    decreases |s|
  {
    if |s| < 2 {
      assert SplitOn(s) == [s];
    } else if BreakAt(s, 0) {
      SplitOnNoBreak(s[2..]);
      assert SplitOn(s) == [""] + SplitOn(s[2..]);
    } else {
      SplitOnNoBreak(s[1..]);
      var rest := SplitOn(s[1..]);
      var first := [s[0]] + rest[0];
      assert SplitOn(s) == [first] + rest[1..];
      forall i | 0 <= i < |first| - 1 ensures !BreakAt(first, i) {
        if i > 0 {
          assert !BreakAt(rest[0], i - 1);
        } else {
          assert first[1] == s[1];
        }
      }
    }
  }

  /** `.filter(s => s.trim())`: the pieces that are not empty or white space only, in order. */
  function NonBlank(parts: seq<string>): (kept: seq<string>)
    ensures |kept| <= |parts|
  {
    if parts == [] then []
    else if IsBlank(parts[|parts| - 1]) then NonBlank(parts[..|parts| - 1])
    else NonBlank(parts[..|parts| - 1]) + [parts[|parts| - 1]]
  }

  /** A piece is kept if and only if it is not blank. */
  lemma {:induction false} NonBlankKeeps(parts: seq<string>)
    ensures forall x :: x in NonBlank(parts) <==> x in parts && !IsBlank(x)
  {
    if parts != [] {
      var init := parts[..|parts| - 1];
      NonBlankKeeps(init);
      assert parts == init + [parts[|parts| - 1]];
    }
  }

  /** Filtering a concatenation filters each half: the kept pieces stay in order, repeats included. */
  lemma {:induction false} NonBlankAppend(a: seq<string>, b: seq<string>)
    ensures NonBlank(a + b) == NonBlank(a) + NonBlank(b)
  {
    if b == [] {
      assert a + b == a;
    } else {
      var init, last := b[..|b| - 1], b[|b| - 1];
      NonBlankAppend(a, init);
      assert (a + b)[..|a + b| - 1] == a + init;
      assert (a + b)[|a + b| - 1] == last;
      if !IsBlank(last) {
        assert NonBlank(a) + NonBlank(b) == NonBlank(a) + NonBlank(init) + [last];
      }
    }
  }

  /**
   * A piece between two stretches of the file is kept exactly when it is
   * not blank, in its place between what is kept of each stretch.
   */
  lemma NonBlankOrder(a: seq<string>, x: string, b: seq<string>)
    ensures NonBlank(a + [x] + b) == NonBlank(a) + (if IsBlank(x) then [] else [x]) + NonBlank(b)
  {
    NonBlankAppend(a + [x], b);
    NonBlankAppend(a, [x]);
    assert [x][..0] == [];
  }

  /** The statements of a seed file: its non-blank pieces between blank lines. */
  function Statements(seedSql: string): seq<string> {
    NonBlank(SplitOn(seedSql))
  }

  /**
   * No retained statement is blank, and none contains two newlines in a
   * row; a piece of the file is a statement exactly when it is not blank.
   */
  lemma StatementsShape(seedSql: string)
    ensures forall x :: x in Statements(seedSql) <==> x in SplitOn(seedSql) && !IsBlank(x)
    ensures forall x :: x in Statements(seedSql) ==> !IsBlank(x) && NoBreak(x)
  {
    NonBlankKeeps(SplitOn(seedSql));
    SplitOnNoBreak(seedSql);
  }

  /** `Math.ceil(statements.length / CHUNKS)` */
  function ChunkSize(n: nat): nat {
    CeilDiv(n, PartCount)
  }

  /** The six chunks `statements.slice(i * chunkSize, (i + 1) * chunkSize)`. */
  function Chunks(statements: seq<string>): (chunks: seq<seq<string>>)
    ensures |chunks| == PartCount
  {
    Strides(statements, ChunkSize(|statements|), PartCount)
  }

  /** The text of one part file. */
  function PartText(chunk: seq<string>): (text: string)
    // every part file ends with a newline, even an empty one
    ensures |text| > 0 && text[|text| - 1] == '\n'
  {
    Join(chunk, Separator) + "\n"
  }

  /** The texts of the part files for the chunks, in order. */
  function PartTexts(chunks: seq<seq<string>>): (texts: seq<string>)
    ensures |texts| == |chunks|
  {
    if chunks == [] then []
    else PartTexts(chunks[..|chunks| - 1]) + [PartText(chunks[|chunks| - 1])]
  }

  /** Text `i` is the text of chunk `i`. */
  lemma {:induction false} PartTextsAt(chunks: seq<seq<string>>)
    ensures forall i :: 0 <= i < |chunks| ==> PartTexts(chunks)[i] == PartText(chunks[i])
  {
    if chunks != [] {
      PartTextsAt(chunks[..|chunks| - 1]);
    }
  }

  /**
   * The loop over the six parts, returning the text of each part file in
   * order: part `i` holds the statements of chunk `i`.
   */
  method Split(seedSql: string) returns (parts: seq<string>)
    ensures |parts| == PartCount
    ensures parts == PartTexts(Chunks(Statements(seedSql)))
  {
    var statements := NonBlank(SplitOn(seedSql));
    var chunkSize := CeilDiv(|statements|, PartCount);
    ghost var chunks := Chunks(statements);
    parts := [];
    for i := 0 to PartCount
      invariant parts == PartTexts(chunks[..i])
    {
      var text := PartAt(statements, chunkSize, i);
      PartTextsSnoc(chunks, i);
      parts := parts + [text];
    }
    assert chunks[..PartCount] == chunks;
  }

  /** One turn of the loop: the text of part `i`. */
  method PartAt(statements: seq<string>, chunkSize: nat, i: nat) returns (text: string)
    requires chunkSize == ChunkSize(|statements|) && i < PartCount
    ensures text == PartText(Chunks(statements)[i])
  {
    var chunk := Slice(statements, i * chunkSize, (i + 1) * chunkSize);
    ChunkAt(statements, i);
    text := Join(chunk, Separator) + "\n";
  }

  lemma PartTextsSnoc(chunks: seq<seq<string>>, i: nat)
    requires i < |chunks|
    ensures PartTexts(chunks[..i + 1]) == PartTexts(chunks[..i]) + [PartText(chunks[i])]
  {
    assert chunks[..i + 1][..i] == chunks[..i];
  }

  lemma ChunkAt(statements: seq<string>, i: nat)
    requires i < PartCount
    ensures (i + 1) * ChunkSize(|statements|) == i * ChunkSize(|statements|) + ChunkSize(|statements|)
    ensures Chunks(statements)[i]
      == Slice(statements, i * ChunkSize(|statements|), i * ChunkSize(|statements|) + ChunkSize(|statements|))
  {
    MulSucc(i, ChunkSize(|statements|));
  }

  /**
   * The chunks partition the statements: there are exactly six of them
   * whatever the number of statements, none is longer than ceil(n/6), and
   * laid end to end they are the statements in order, none lost or
   * repeated. Only the trailing chunks can be short or empty.
   */
  lemma ChunksPartition(statements: seq<string>)
    ensures |Chunks(statements)| == 6
    ensures forall i :: 0 <= i < 6 ==> |Chunks(statements)[i]| <= ChunkSize(|statements|)
    ensures Concat(Chunks(statements)) == statements
    ensures forall i, j :: 0 <= i < j < 6 && Chunks(statements)[i] == [] ==> Chunks(statements)[j] == []
  {
    var n, w := |statements|, ChunkSize(|statements|);
    StridesConcat(statements, w, PartCount);
    assert Min(PartCount * w, n) == n;
    forall i, j | 0 <= i < j < 6 && Chunks(statements)[i] == [] ensures Chunks(statements)[j] == [] {
      EmptyChunkThenEmpty(statements, i, j);
    }
  }

  /** Once a chunk is empty the statements have run out: every later chunk is empty too. */
  lemma EmptyChunkThenEmpty(statements: seq<string>, i: nat, j: nat)
    requires i < j < PartCount && Chunks(statements)[i] == []
    ensures Chunks(statements)[j] == []
  {
    var n, w := |statements|, ChunkSize(|statements|);
    ChunkAt(statements, i);
    ChunkAt(statements, j);
    MulMonotone(i, j, w);
    if w > 0 {
      assert |Slice(statements, i * w, i * w + w)| == 0;
      assert i * w >= n;
    }
  }
}
