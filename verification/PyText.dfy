/** Text as the Python tools take it apart: blanks, tokens, key=value fields and
    integers. */
module PyText {
  import opened Bytes
  import opened HexText

  predicate IsAscii(s: string) {
    forall i :: 0 <= i < |s| ==> s[i] < 128 as char
  }

  predicate AllAscii(data: seq<byte>) {
    forall i :: 0 <= i < |data| ==> data[i] < 128
  }

  /** ASCII bytes as text. */
  function Chars(data: seq<byte>): (s: string)
    requires AllAscii(data)
    ensures |s| == |data| && forall i :: 0 <= i < |s| ==> s[i] as int == data[i]
  {
    seq(|data|, i requires 0 <= i < |data| => data[i] as char)
  }

  /** The bytes of ASCII text. */
  function TextBytes(s: string): (data: seq<byte>)
    requires IsAscii(s)
    ensures AllAscii(data) && Chars(data) == s
  {
    var data: seq<byte> := seq(|s|, i requires 0 <= i < |s| => s[i] as int);
    assert Chars(data) == s;
    data
  }

  /** The characters that str.strip and str.split take for blanks. */
  predicate IsSpace(c: char) {
    var k := c as int;
    9 <= k <= 13 || 28 <= k <= 32 || k == 0x85 || k == 0xA0 || k == 0x1680 || 0x2000 <= k <= 0x200A
    || k == 0x2028 || k == 0x2029 || k == 0x202F || k == 0x205F || k == 0x3000
  }

  predicate HasSpace(s: string) {
    exists i :: 0 <= i < |s| && IsSpace(s[i])
  }

  function LStrip(s: string): string {
    if s == "" || !IsSpace(s[0]) then s else LStrip(s[1..])
  }

  function RStrip(s: string): string {
    if s == "" || !IsSpace(s[|s| - 1]) then s else RStrip(s[..|s| - 1])
  }

  function Strip(s: string): string {
    RStrip(LStrip(s))
  }

  predicate StartsWith(s: string, prefix: string) {
    |prefix| <= |s| && s[..|prefix|] == prefix
  }

  lemma StartsWithItself(prefix: string, rest: string)
    ensures StartsWith(prefix + rest, prefix)
  {
  }

  /** How many characters at the front of s are not blank. */
  function TokenLength(s: string): (n: nat)
    ensures n <= |s|
    ensures forall i :: 0 <= i < n ==> !IsSpace(s[i])
    ensures n < |s| ==> IsSpace(s[n])
  {
    if s == "" || IsSpace(s[0]) then 0 else 1 + TokenLength(s[1..])
  }

  /** str.split() */
  function Split(s: string): seq<string>
    decreases |s|
  {
    if s == "" then []
    else if IsSpace(s[0]) then Split(s[1..])
    else [s[..TokenLength(s)]] + Split(s[TokenLength(s)..])
  }

  /** Position of the first '=' in s, or its length. */
  function EqualsAt(s: string): (n: nat)
    ensures n <= |s| && forall i :: 0 <= i < n ==> s[i] != '='
    ensures n < |s| ==> s[n] == '='
  {
    if s == "" || s[0] == '=' then 0 else 1 + EqualsAt(s[1..])
  }

  /** dict(token.split("=", 1) for token in tokens if "=" in token) */
  function FieldsOf(tokens: seq<string>): map<string, string> {
    if tokens == [] then map[]
    else
      var fields, token := FieldsOf(tokens[..|tokens| - 1]), tokens[|tokens| - 1];
      var n := EqualsAt(token);
      if n == |token| then fields else fields[token[..n] := token[n + 1..]]
  }

  /** The fields of a line, its first token left out. */
  function LineFields(line: string): map<string, string> {
    var tokens := Split(line);
    FieldsOf(if tokens == [] then [] else tokens[1..])
  }

  /** dict.get */
  function Get(fields: map<string, string>, key: string, default: string): string {
    if key in fields then fields[key] else default
  }

  // ---- integers ----

  /** The value of a digit in bases up to 16. */
  function DigitOf(c: char, base: nat): (d: Option<nat>)
    ensures d.Some? ==> d.value < base
  {
    var v := Nibble(c);
    if v.Some? && v.value < base then v else None
  }

  /** Digits with single underscores between them. */
  function DigitsOf(s: string, base: nat): (v: Option<nat>) {
    if s == "" then None
    else
      var n := |s| - 1;
      var d := DigitOf(s[n], base);
      if d.None? then None
      else if n == 0 then d
      else
        var rest := DigitsOf(if s[n - 1] == '_' then s[..n - 1] else s[..n], base);
        if rest.None? then None else Some(base * rest.value + d.value)
  }

  function Signed(s: string, base: nat): Option<int> {
    if s != "" && s[0] == '-' then
      var v := DigitsOf(s[1..], base);
      if v.None? then None else Some(0 - v.value)
    else
      var v := DigitsOf(if s != "" && s[0] == '+' then s[1..] else s, base);
      if v.None? then None else Some(v.value)
  }

  /** int() of an ASCII token. */
  function AsciiInt(s: string): Option<int> {
    Signed(s, 10)
  }

  /** printf's %u */
  function Decimal(n: nat): (s: string)
    ensures s != "" && forall i :: 0 <= i < |s| ==> '0' <= s[i] <= '9'
  {
    var last := [('0' as int + n % 10) as char];
    if n < 10 then last else Decimal(n / 10) + last
  }

  lemma DigitChar(d: nat)
    requires d < 10
    ensures ('0' as int + d) as char == "0123456789"[d]
  {
  }

  /** The last digit, and the digits before it. */
  lemma DecimalIs(n: nat, front: string)
    requires front == if n < 10 then "" else Decimal(n / 10)
    ensures Decimal(n) == front + ["0123456789"[n % 10]]
  {
    DigitChar(n % 10);
  }

  lemma {:induction false} DecimalDigits(n: nat)
    ensures DigitsOf(Decimal(n), 10) == Some(n)
  {
    var s := Decimal(n);
    if n >= 10 {
      DecimalDigits(n / 10);
      assert s[..|s| - 1] == Decimal(n / 10);
      assert s[|s| - 2] == Decimal(n / 10)[|s| - 2];
    }
  }

  /** int() reads back what %u printed. */
  lemma DecimalParses(n: nat)
    ensures AsciiInt(Decimal(n)) == Some(n)
  {
    DecimalDigits(n);
  }

  // ---- printed lines ----

  datatype Pair = Pair(key: string, value: string)

  /** A token that a printed line may carry. */
  predicate PlainPair(p: Pair) {
    p.key != "" && '=' !in p.key && !HasSpace(p.key) && !HasSpace(p.value)
  }

  predicate AllPlain(pairs: seq<Pair>) {
    forall k :: 0 <= k < |pairs| ==> PlainPair(pairs[k])
  }

  function TokenOf(p: Pair): string {
    p.key + "=" + p.value
  }

  function TokensOf(pairs: seq<Pair>): (t: seq<string>)
    ensures |t| == |pairs|
  {
    if pairs == [] then [] else [TokenOf(pairs[0])] + TokensOf(pairs[1..])
  }

  /** The tokens, each behind a blank. */
  function Printed(tokens: seq<string>): string {
    if tokens == [] then "" else " " + tokens[0] + Printed(tokens[1..])
  }

  function MapOf(pairs: seq<Pair>): map<string, string> {
    if pairs == [] then map[]
    else MapOf(pairs[..|pairs| - 1])[pairs[|pairs| - 1].key := pairs[|pairs| - 1].value]
  }

  predicate PlainToken(s: string) {
    s != "" && !HasSpace(s)
  }

  lemma TokenLengthIs(s: string, n: nat)
    requires n <= |s| && (forall i :: 0 <= i < n ==> !IsSpace(s[i])) && (n < |s| ==> IsSpace(s[n]))
    ensures TokenLength(s) == n
  {
  }

  lemma {:induction false} SplitPrinted(head: string, tokens: seq<string>)
    requires PlainToken(head) && forall k :: 0 <= k < |tokens| ==> PlainToken(tokens[k])
    ensures Split(head + Printed(tokens)) == [head] + tokens
    decreases |tokens|
  {
    var rest := Printed(tokens);
    var s := head + rest;
    TokenLengthIs(s, |head|);
    assert s[..|head|] == head && s[|head|..] == rest;
    if tokens != [] {
      var next := tokens[0] + Printed(tokens[1..]);
      assert rest == " " + next && rest[1..] == next;
      SplitPrinted(tokens[0], tokens[1..]);
      assert [tokens[0]] + tokens[1..] == tokens;
    }
  }

  lemma EqualsAtIs(s: string, n: nat)
    requires n < |s| && s[n] == '=' && forall i :: 0 <= i < n ==> s[i] != '='
    ensures EqualsAt(s) == n
  {
  }

  lemma EqualsInToken(p: Pair)
    requires '=' !in p.key
    ensures EqualsAt(TokenOf(p)) == |p.key|
    ensures TokenOf(p)[..|p.key|] == p.key && TokenOf(p)[|p.key| + 1..] == p.value
  {
    var s := TokenOf(p);
    assert s[|p.key|] == '=';
    assert forall i :: 0 <= i < |p.key| ==> s[i] == p.key[i];
    EqualsAtIs(s, |p.key|);
  }

  lemma {:induction false} FieldsOfTokens(pairs: seq<Pair>)
    requires AllPlain(pairs)
    ensures FieldsOf(TokensOf(pairs)) == MapOf(pairs)
  {
    if pairs != [] {
      var n := |pairs| - 1;
      FieldsOfTokens(pairs[..n]);
      TokensSnoc(pairs);
      EqualsInToken(pairs[n]);
    }
  }

  lemma {:induction false} TokensSnoc(pairs: seq<Pair>)
    requires pairs != []
    ensures
      var n := |pairs| - 1;
      TokensOf(pairs)[..n] == TokensOf(pairs[..n]) && TokensOf(pairs)[n] == TokenOf(pairs[n])
  {
    var n := |pairs| - 1;
    if n > 0 {
      TokensSnoc(pairs[1..]);
      assert pairs[1..][..n - 1] == pairs[..n][1..];
      assert TokensOf(pairs)[..n] == [TokenOf(pairs[0])] + TokensOf(pairs[1..])[..n - 1];
    }
  }

  lemma TokenIsPlain(p: Pair)
    requires PlainPair(p)
    ensures PlainToken(TokenOf(p))
  {
    var s := TokenOf(p);
    forall i | 0 <= i < |s|
      ensures !IsSpace(s[i])
    {
      if i < |p.key| {
        assert s[i] == p.key[i];
      } else if i > |p.key| {
        assert s[i] == p.value[i - |p.key| - 1];
      }
    }
  }

  lemma {:induction false} TokensArePlain(pairs: seq<Pair>)
    requires AllPlain(pairs)
    ensures forall k :: 0 <= k < |pairs| ==> PlainToken(TokensOf(pairs)[k])
  {
    if pairs != [] {
      TokenIsPlain(pairs[0]);
      TokensArePlain(pairs[1..]);
    }
  }

  /** The tokens behind the first, as fields: what the readers take from a line
      that the firmware printed as a tag and key=value pairs. */
  lemma FieldsOfPrinted(tag: string, pairs: seq<Pair>)
    requires PlainToken(tag) && AllPlain(pairs)
    ensures LineFields(tag + Printed(TokensOf(pairs))) == MapOf(pairs)
  {
    TokensArePlain(pairs);
    SplitPrinted(tag, TokensOf(pairs));
    assert ([tag] + TokensOf(pairs))[1..] == TokensOf(pairs);
    FieldsOfTokens(pairs);
  }

  lemma {:induction false} PrintedEnds(tokens: seq<string>)
    requires tokens != [] && forall k :: 0 <= k < |tokens| ==> PlainToken(tokens[k])
    ensures
      var s := Printed(tokens);
      s != "" && !IsSpace(s[|s| - 1])
  {
    var rest := Printed(tokens[1..]);
    var s := Printed(tokens);
    assert s == " " + tokens[0] + rest;
    if |tokens| > 1 {
      PrintedEnds(tokens[1..]);
      assert s[|s| - 1] == rest[|rest| - 1];
    } else {
      assert rest == "";
      assert s[|s| - 1] == tokens[0][|tokens[0]| - 1];
    }
  }

  lemma PlainEnds(s: string)
    requires PlainToken(s)
    ensures !IsSpace(s[0]) && !IsSpace(s[|s| - 1])
  {
  }

  /** A printed line neither starts nor ends with a blank. */
  lemma PrintedLineEnds(tag: string, pairs: seq<Pair>)
    requires PlainToken(tag) && AllPlain(pairs)
    ensures
      var s := tag + Printed(TokensOf(pairs));
      s != "" && !IsSpace(s[0]) && !IsSpace(s[|s| - 1])
  {
    var rest := Printed(TokensOf(pairs));
    var s := tag + rest;
    PlainEnds(tag);
    TokensArePlain(pairs);
    assert s[0] == tag[0];
    if pairs != [] {
      PrintedEnds(TokensOf(pairs));
      assert s[|s| - 1] == rest[|rest| - 1];
    } else {
      assert s[|s| - 1] == tag[|tag| - 1];
    }
  }

  /** Stripping a printed line takes its line end and nothing else. */
  lemma StripPrinted(tag: string, pairs: seq<Pair>, blanks: string)
    requires PlainToken(tag) && AllPlain(pairs)
    requires forall i :: 0 <= i < |blanks| ==> IsSpace(blanks[i])
    ensures Strip(tag + Printed(TokensOf(pairs)) + blanks) == tag + Printed(TokensOf(pairs))
  {
    PrintedLineEnds(tag, pairs);
    StripTrailing(tag + Printed(TokensOf(pairs)), blanks);
  }

  lemma StripTrailing(s: string, blanks: string)
    requires s != "" && !IsSpace(s[0]) && !IsSpace(s[|s| - 1])
    requires forall i :: 0 <= i < |blanks| ==> IsSpace(blanks[i])
    ensures Strip(s + blanks) == s
    decreases |blanks|
  {
    if blanks == "" {
      assert s + blanks == s;
    } else {
      var t := s + blanks;
      assert t[..|t| - 1] == s + blanks[..|blanks| - 1];
      StripTrailing(s, blanks[..|blanks| - 1]);
    }
  }
}
