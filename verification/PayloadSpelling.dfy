/** Whole payloads with every number written out (the constants at the top of
    src/ducknng_quack.c), and where an accepted payload ends. */
module PayloadSpelling {
  import opened Leb128
  import opened ByteKernel
  import opened Options
  import opened QuackChunks
  import opened QuackPayload
  import opened QuackSpelling
  import opened QuackTransfer
  import opened QuackTypes
  import opened QuackVectors
  import opened Widths

  function SpelledTypes(schema: seq<Member>, rest: bytes): bytes
    requires CanonicalMembers(schema, 0)
  {
    if schema == [] then rest else QuackSpelling.Spelled(schema[0].kind, 0, SpelledTypes(schema[1..], rest))
  }

  function SpelledBatch(schema: seq<Member>, b: Batch, rest: bytes): bytes
    requires CanonicalMembers(schema, 0) && Sound(schema, b)
  {
    [1, 44, 1, 100, 0] + Uleb(b.rows) + [101, 0] + Uleb(|schema|)
    + SpelledTypes(schema, [102, 0] + Uleb(|schema|)
        + SpelledColumns(schema, b.vectors, b.rows, [255, 255, 255, 255] + rest))
  }

  function SpelledBatches(schema: seq<Member>, batches: seq<Batch>, rest: bytes): bytes
    requires CanonicalMembers(schema, 0) && AllSound(schema, batches)
  {
    if batches == [] then rest else SpelledBatch(schema, batches[0], SpelledBatches(schema, batches[1..], rest))
  }

  /** The payload of a result: types, names, and the chunks if there are any. */
  function SpelledPayload(schema: seq<Member>, batches: seq<Batch>): bytes
    requires CanonicalMembers(schema, 0) && AllSound(schema, batches)
  {
    var results := if batches == [] then [255, 255]
      else [4, 0] + Uleb(|batches|) + SpelledBatches(schema, batches, [255, 255]);
    [1, 0] + Uleb(|schema|)
    + SpelledTypes(schema, [2, 0] + Uleb(|schema|) + SpelledLabels(Names(schema), results))
  }

  lemma {:induction false} TypesSpelled(schema: seq<Member>, rest: bytes)
    requires CanonicalMembers(schema, 0)
    ensures TypesBefore(schema, rest) == Some(SpelledTypes(schema, rest))
  {
    hide TypeBefore, QuackSpelling.Spelled, Canonical;
    if schema != [] {
      TypesSpelled(schema[1..], rest);
      TypeSpelled(schema[0].kind, 0, SpelledTypes(schema[1..], rest));
    }
  }

  lemma BatchSpelled(schema: seq<Member>, b: Batch, rest: bytes)
    requires CanonicalMembers(schema, 0) && Sound(schema, b)
    ensures BatchBefore(schema, b, rest) == Some(SpelledBatch(schema, b, rest))
  {
    hide CanonicalMembers, FitsAll, ColumnsBefore, SpelledColumns, TypesBefore, SpelledTypes, Uleb;
    EndSpelled(rest);
    var end := [255, 255, 255, 255] + rest;
    ColumnsTotal(schema, b.vectors, b.rows, 0, end);
    ColumnsSpelled(schema, b.vectors, b.rows, 0, end);
    var columns := SpelledColumns(schema, b.vectors, b.rows, end);
    var tail := Field(102, Number(|schema|, columns));
    assert tail == [102, 0] + Uleb(|schema|) + columns;
    TypesSpelled(schema, tail);
    HeadSpelled(b.rows, |schema|, SpelledTypes(schema, tail));
  }

  lemma HeadSpelled(rows: nat, n: nat, types: bytes)
    ensures [1] + Field(300, Field(100, Number(rows, Field(101, Number(n, types)))))
      == [1, 44, 1, 100, 0] + Uleb(rows) + [101, 0] + Uleb(n) + types
  {
    hide Uleb;
  }

  lemma NumberedSpelled(field: byte, n: nat, rest: bytes)
    ensures Field(field, Number(n, rest)) == [field, 0] + Uleb(n) + rest
  {
    hide Uleb;
  }

  lemma {:induction false} BatchesSpelled(schema: seq<Member>, batches: seq<Batch>, rest: bytes)
    requires CanonicalMembers(schema, 0) && AllSound(schema, batches)
    ensures BatchesBefore(schema, batches, rest) == Some(SpelledBatches(schema, batches, rest))
  {
    hide CanonicalMembers, Sound, BatchBefore, SpelledBatch;
    if batches != [] {
      BatchesSpelled(schema, batches[1..], rest);
      BatchSpelled(schema, batches[0], SpelledBatches(schema, batches[1..], rest));
    }
  }

  /** The encoder produces exactly these bytes. */
  lemma PayloadSpelled(schema: seq<Member>, batches: seq<Batch>)
    requires CanonicalMembers(schema, 0) && |schema| <= 65536 && AllSound(schema, batches)
    ensures Payload(schema, batches) == Some(SpelledPayload(schema, batches))
  {
    hide CanonicalMembers, AllSound, BatchesBefore, SpelledBatches, TypesBefore, SpelledTypes, LabelsBefore,
      SpelledLabels, Uleb, Number;
    var end: bytes := [255, 255];
    assert Field(FIELD_END, []) == end;
    BatchesSpelled(schema, batches, end);
    var results := ResultsBefore(schema, batches).value;
    LabelsSpelled(Names(schema), results);
    var names := SpelledLabels(Names(schema), results);
    var tail := Field(2, Number(|schema|, names));
    TypesSpelled(schema, tail);
    NumberedSpelled(4, |batches|, SpelledBatches(schema, batches, end));
    NumberedSpelled(2, |schema|, names);
    NumberedSpelled(1, |schema|, SpelledTypes(schema, tail));
  }

  /** A results section passes the check if and only if it is the end marker and nothing else,
      or a list of that many chunks followed by the end marker and nothing else. */
  lemma CheckedToTheEnd(s: bytes, schema: seq<Member>, cap: nat, total: nat)
    ensures ValidateResults(s, schema, cap) == Some(total) <==>
      || (s == [255, 255] && total == 0)
      || (&& |s| >= 2 && s[0] == 4 && s[1] == 0 && ReadUleb(s[2..]).Got?
          && SkipChunks(ReadUleb(s[2..]).rest, schema, ReadUleb(s[2..]).value, cap, 0) == Got(total, [255, 255]))
  {
    hide SkipChunks, ReadUleb;
  }
}
