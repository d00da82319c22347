/** The text of the report line, field by field. */
module AebLine {
  import opened Bytes
  import opened HexText
  import opened PyText
  import opened AebReport

  /** A field as printf prints it. */
  function Field(key: string, value: string): string {
    " " + key + "=" + value
  }

  function CountsFields(r: Report): seq<string> {
    [Field("trial", Decimal(r.trial)), Field("condition", if r.idle then "idle" else "burst"),
     Field("nonce", Hex(r.nonce)), Field("sample_bytes", Decimal(r.sampleBytes)),
     Field("packets_expected", Decimal(r.expected)), Field("packets_seen", Decimal(r.seen))]
  }

  function MeasuresFields(r: Report): seq<string> {
    [Field("interval_us", Decimal(r.intervalUs)), Field("sample_us", Decimal(r.sampleUs)),
     Field("ones", Decimal(r.ones)), Field("transitions", Decimal(r.transitions)),
     Field("jitter_min_us", Decimal(r.minUs)), Field("jitter_mean_us", Decimal(r.meanUs)),
     Field("jitter_max_us", Decimal(r.maxUs))]
  }

  function DigestsFields(r: Report): seq<string> {
    [Field("raw_sha256", Hex(r.rawHash)), Field("jitter_sha256", Hex(r.jitterHash)),
     Field("response_sha256", Hex(r.responseHash)), Field("seed_sha256", Hex(r.seedHash))]
  }

  lemma {:induction false} PrintedFields(pairs: seq<Pair>, fields: seq<string>)
    requires |fields| == |pairs|
    requires forall i :: 0 <= i < |pairs| ==> fields[i] == Field(pairs[i].key, pairs[i].value)
    ensures Printed(TokensOf(pairs)) == Flatten(fields)
  {
    if pairs != [] {
      var n := |pairs| - 1;
      PrintedFields(pairs[..n], fields[..n]);
      PrintedNext(pairs[..n], pairs[n], Flatten(fields[..n]));
      assert pairs == pairs[..n] + [pairs[n]];
    }
  }

  /** The line as the format string has it: every field prints its own value, in
      this order. */
  lemma LineText(r: Report)
    ensures ReportLine(r) == "[AEB_RESULT]" + Flatten(CountsFields(r) + MeasuresFields(r) + DigestsFields(r)) + "\n"
  {
    PrintedFields(Counts(r), CountsFields(r));
    PrintedFields(Measures(r), MeasuresFields(r));
    PrintedFields(Digests(r), DigestsFields(r));
    PrintedConcat(Counts(r) + Measures(r), Digests(r));
    PrintedConcat(Counts(r), Measures(r));
    FlattenConcat(CountsFields(r) + MeasuresFields(r), DigestsFields(r));
    FlattenConcat(CountsFields(r), MeasuresFields(r));
  }
}
