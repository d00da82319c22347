/** The lines of the SRAM experiment's serial log: as the firmware prints them
    and as the host takes them apart. */
module SramText {
  import opened Bytes
  import opened HexText
  import opened PyText

  const BEGIN_TAG := "[SRAM_CAPTURE_BEGIN]"
  const DATA_TAG := "[SRAM_DATA]"
  const END_TAG := "[SRAM_CAPTURE_END]"
  const READY_TAG := "[SRAM_READY]"

  /** A line of the log as the reader tells them apart.  A field is None when
      the line does not carry it or it does not parse. */
  datatype Line =
    | Begin(size: Option<int>, address: Option<int>)
    | Data(offset: Option<int>, hex: Option<string>)
    | End
    | Ready
    | Noise

  /** bytes.decode("ascii", errors="replace") */
  function DecodeAscii(raw: seq<byte>): (s: string)
    ensures |s| == |raw|
    ensures AllAscii(raw) ==> s == Chars(raw)
  {
    seq(|raw|, i requires 0 <= i < |raw| => if raw[i] < 128 then raw[i] as char else 0xFFFD as char)
  }

  /** int(text, 16): a sign and the prefix 0x are optional. */
  function HexInt(s: string): Option<int> {
    var negative := s != "" && s[0] == '-';
    var t := if s != "" && (s[0] == '-' || s[0] == '+') then s[1..] else s;
    var prefixed := StartsWith(t, "0x") || StartsWith(t, "0X");
    var u := if prefixed then t[2..] else t;
    var digits := if prefixed && u != "" && u[0] == '_' then u[1..] else u;
    var v := DigitsOf(digits, 16);
    if v.None? then None else Some(if negative then 0 - v.value else v.value)
  }

  function IntField(fields: map<string, string>, key: string): Option<int> {
    if key in fields then AsciiInt(fields[key]) else None
  }

  function TextField(fields: map<string, string>, key: string): Option<string> {
    if key in fields then Some(fields[key]) else None
  }

  /** What the reader sees in a line of text. */
  function ParseLine(line: string): Line {
    if StartsWith(line, BEGIN_TAG) then
      var fields := LineFields(line);
      Begin(AsciiInt(Get(fields, "bytes", "0")),
            if "address" in fields then HexInt(fields["address"]) else None)
    else if StartsWith(line, DATA_TAG) then
      var fields := LineFields(line);
      Data(IntField(fields, "offset"), TextField(fields, "hex"))
    else if line == END_TAG then End
    else if StartsWith(line, READY_TAG) then Ready
    else Noise
  }

  function ReadLine(raw: seq<byte>): Line {
    ParseLine(Strip(DecodeAscii(raw)))
  }

  // ---- what the firmware prints ----

  /** Lower-case hexadecimal digits without leading zeros. */
  function HexDigits(n: nat): (s: string)
    ensures s != "" && forall i :: 0 <= i < |s| ==> '0' <= s[i] <= '9' || 'a' <= s[i] <= 'f'
  {
    if n < 16 then [HexDigit(n)] else HexDigits(n / 16) + [HexDigit(n % 16)]
  }

  /** %p */
  function Pointer(address: nat): string {
    "0x" + HexDigits(address)
  }

  function BeginPairs(size: nat, address: nat): seq<Pair> {
    [Pair("bytes", Decimal(size)), Pair("address", Pointer(address))]
  }

  function DataPairs(offset: nat, hex: string): seq<Pair> {
    [Pair("offset", Decimal(offset)), Pair("hex", hex)]
  }

  function BeginText(size: nat, address: nat): string {
    BEGIN_TAG + Printed(TokensOf(BeginPairs(size, address)))
  }

  function DataText(offset: nat, hex: string): string {
    DATA_TAG + Printed(TokensOf(DataPairs(offset, hex)))
  }

  const READY_TEXT := "[SRAM_READY] command=FILL_HEX_BYTE"

  /** The bytes of a printed line: its text and a line end, with or without the
      carriage return that a console driver adds. */
  ghost predicate LineOf(raw: seq<byte>, text: string) {
    AllAscii(raw) && (Chars(raw) == text + "\n" || Chars(raw) == text + "\r\n")
  }

  // ---- printed lines are read back ----

  lemma {:induction false} HexDigitsParse(n: nat)
    ensures DigitsOf(HexDigits(n), 16) == Some(n)
  {
    var s := HexDigits(n);
    NibbleOfDigit(n % 16);
    if n >= 16 {
      HexDigitsParse(n / 16);
      assert s[..|s| - 1] == HexDigits(n / 16);
      assert s[|s| - 2] == HexDigits(n / 16)[|s| - 2];
    }
  }

  lemma PointerParses(address: nat)
    ensures HexInt(Pointer(address)) == Some(address)
  {
    var s := Pointer(address);
    assert s[..2] == "0x" && s[2..] == HexDigits(address);
    HexDigitsParse(address);
  }

  lemma BeginPairsPlain(size: nat, address: nat)
    ensures AllPlain(BeginPairs(size, address))
  {
    assert PlainPair(BeginPairs(size, address)[0]);
    assert PlainPair(BeginPairs(size, address)[1]);
  }

  lemma DataPairsPlain(offset: nat, hex: string)
    requires !HasSpace(hex)
    ensures AllPlain(DataPairs(offset, hex))
  {
    assert PlainPair(DataPairs(offset, hex)[0]);
    assert PlainPair(DataPairs(offset, hex)[1]);
  }

  lemma TwoFields(a: Pair, b: Pair)
    requires a.key != b.key
    ensures MapOf([a, b]) == map[a.key := a.value, b.key := b.value]
  {
    assert [a, b][..1] == [a] && [a][..0] == [];
    assert MapOf([a]) == MapOf([])[a.key := a.value] == map[a.key := a.value];
  }

  lemma TagsArePlain()
    ensures PlainToken(BEGIN_TAG) && PlainToken(DATA_TAG)
  {
  }

  lemma BeginParses(size: nat, address: nat)
    ensures ParseLine(BeginText(size, address)) == Begin(Some(size), Some(address))
  {
    TagsArePlain();
    BeginPairsPlain(size, address);
    FieldsOfPrinted(BEGIN_TAG, BeginPairs(size, address));
    TwoFields(Pair("bytes", Decimal(size)), Pair("address", Pointer(address)));
    StartsWithItself(BEGIN_TAG, Printed(TokensOf(BeginPairs(size, address))));
    DecimalParses(size);
    PointerParses(address);
  }

  lemma DataParses(offset: nat, hex: string)
    requires !HasSpace(hex)
    ensures ParseLine(DataText(offset, hex)) == Data(Some(offset), Some(hex))
  {
    TagsArePlain();
    DataPairsPlain(offset, hex);
    FieldsOfPrinted(DATA_TAG, DataPairs(offset, hex));
    TwoFields(Pair("offset", Decimal(offset)), Pair("hex", hex));
    StartsWithItself(DATA_TAG, Printed(TokensOf(DataPairs(offset, hex))));
    NotBegin(Printed(TokensOf(DataPairs(offset, hex))));
    DecimalParses(offset);
  }

  lemma NotBegin(rest: string)
    ensures !StartsWith(DATA_TAG + rest, BEGIN_TAG)
  {
    assert (DATA_TAG + rest)[6] == 'D' && BEGIN_TAG[6] == 'C';
  }

  lemma HexHasNoSpace(s: seq<byte>)
    ensures !HasSpace(Hex(s))
  {
    HexIsDigits(s);
  }

  lemma {:induction false} HexIsDigits(s: seq<byte>)
    ensures forall i :: 0 <= i < |Hex(s)| ==> '0' <= Hex(s)[i] <= 'f'
  {
    if s != [] {
      HexIsDigits(s[..|s| - 1]);
    }
  }

  /** Stripping takes either line end. */
  lemma LineStrips(raw: seq<byte>, text: string)
    requires LineOf(raw, text) && text != "" && !IsSpace(text[0]) && !IsSpace(text[|text| - 1])
    ensures Strip(DecodeAscii(raw)) == text
  {
    if Chars(raw) == text + "\n" {
      StripTrailing(text, "\n");
    } else {
      StripTrailing(text, "\r\n");
    }
  }

  lemma StrippedIs(raw: seq<byte>, tag: string, pairs: seq<Pair>, text: string)
    requires text == tag + Printed(TokensOf(pairs)) && LineOf(raw, text)
    requires PlainToken(tag) && AllPlain(pairs)
    ensures Strip(DecodeAscii(raw)) == text
  {
    PrintedLineEnds(tag, pairs);
    LineStrips(raw, text);
  }

  lemma BeginReadsBack(raw: seq<byte>, size: nat, address: nat)
    requires LineOf(raw, BeginText(size, address))
    ensures ReadLine(raw) == Begin(Some(size), Some(address))
  {
    TagsArePlain();
    BeginPairsPlain(size, address);
    StrippedIs(raw, BEGIN_TAG, BeginPairs(size, address), BeginText(size, address));
    BeginParses(size, address);
  }

  lemma DataReadsBack(raw: seq<byte>, offset: nat, data: seq<byte>)
    requires LineOf(raw, DataText(offset, Hex(data)))
    ensures ReadLine(raw) == Data(Some(offset), Some(Hex(data)))
  {
    HexHasNoSpace(data);
    TagsArePlain();
    DataPairsPlain(offset, Hex(data));
    StrippedIs(raw, DATA_TAG, DataPairs(offset, Hex(data)), DataText(offset, Hex(data)));
    DataParses(offset, Hex(data));
  }

  lemma EndParses()
    ensures ParseLine(END_TAG) == End
  {
    assert |END_TAG| < |BEGIN_TAG| && END_TAG[6] == 'C' && DATA_TAG[6] == 'D';
  }

  lemma ReadyParses()
    ensures ParseLine(READY_TEXT) == Ready
  {
    assert READY_TEXT[6] == 'R' && BEGIN_TAG[6] == 'C' && DATA_TAG[6] == 'D' && END_TAG[6] == 'C';
    assert READY_TEXT[..|READY_TAG|] == READY_TAG;
  }

  lemma EndReadsBack(raw: seq<byte>)
    requires LineOf(raw, END_TAG)
    ensures ReadLine(raw) == End
  {
    LineStrips(raw, END_TAG);
    EndParses();
  }

  lemma ReadyReadsBack(raw: seq<byte>)
    requires LineOf(raw, READY_TEXT)
    ensures ReadLine(raw) == Ready
  {
    LineStrips(raw, READY_TEXT);
    ReadyParses();
  }

  lemma OnePair(p: Pair)
    ensures Printed(TokensOf([p])) == " " + (p.key + "=" + p.value)
  {
    assert TokensOf([p]) == [TokenOf(p)];
    assert Printed([TokenOf(p)][1..]) == "";
  }

  lemma TwoPairs(p: Pair, q: Pair)
    ensures Printed(TokensOf([p, q])) == " " + (p.key + "=" + p.value) + (" " + (q.key + "=" + q.value))
  {
    OnePair(q);
    assert [p, q][1..] == [q];
    assert TokensOf([p, q]) == [TokenOf(p)] + TokensOf([q]);
    assert ([TokenOf(p)] + TokensOf([q]))[1..] == TokensOf([q]);
  }

  /** The printed lines, as the format strings have them. */
  lemma TextsAre(size: nat, address: nat, offset: nat, hex: string)
    ensures BeginText(size, address)
      == "[SRAM_CAPTURE_BEGIN]" + (" " + ("bytes" + "=" + Decimal(size)) + (" " + ("address" + "=" + Pointer(address))))
    ensures DataText(offset, hex)
      == "[SRAM_DATA]" + (" " + ("offset" + "=" + Decimal(offset)) + (" " + ("hex" + "=" + hex)))
    ensures Pointer(address)[..2] == "0x" && Pointer(address)[2..] == HexDigits(address)
  {
    TwoPairs(Pair("bytes", Decimal(size)), Pair("address", Pointer(address)));
    TwoPairs(Pair("offset", Decimal(offset)), Pair("hex", hex));
  }

  lemma Differ(line: string, tag: string, other: string, k: nat)
    requires StartsWith(line, tag) && k < |tag| && k < |other| && tag[k] != other[k]
    ensures !StartsWith(line, other) && line != other
  {
    assert line[..|tag|][k] == line[k];
    assert |other| <= |line| ==> line[..|other|][k] == line[k];
  }

  /** What a line is, by its text. */
  lemma LineKinds(line: string)
    ensures ParseLine(line).Begin? <==> StartsWith(line, "[SRAM_CAPTURE_BEGIN]")
    ensures ParseLine(line).Data? <==> StartsWith(line, "[SRAM_DATA]")
    ensures ParseLine(line).End? <==> line == "[SRAM_CAPTURE_END]"
    ensures ParseLine(line).Ready? <==> StartsWith(line, "[SRAM_READY]")
  {
    if StartsWith(line, BEGIN_TAG) {
      Differ(line, BEGIN_TAG, DATA_TAG, 6);
      Differ(line, BEGIN_TAG, END_TAG, 14);
      Differ(line, BEGIN_TAG, READY_TAG, 6);
    } else if StartsWith(line, DATA_TAG) {
      Differ(line, DATA_TAG, END_TAG, 6);
      Differ(line, DATA_TAG, READY_TAG, 6);
    } else if StartsWith(line, READY_TAG) {
      Differ(line, READY_TAG, END_TAG, 6);
    }
  }

  /** What it carries: a BEGIN without a size has size 0, all other fields that are
      missing stay missing. */
  lemma LineFieldsAre(line: string)
    ensures
      var f := LineFields(line);
      && (ParseLine(line).Begin? ==>
            && ParseLine(line).size == (if "bytes" in f then AsciiInt(f["bytes"]) else Some(0))
            && ParseLine(line).address == (if "address" in f then HexInt(f["address"]) else None))
      && (ParseLine(line).Data? ==>
            && ParseLine(line).offset == (if "offset" in f then AsciiInt(f["offset"]) else None)
            && ParseLine(line).hex == (if "hex" in f then Some(f["hex"]) else None))
  {
    DecimalParses(0);
    assert Decimal(0) == "0";
  }
}
