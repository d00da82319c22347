/** The firmware's command line: characters gather in a 32-byte buffer until a
    line end, and "FILL hh" fills the measured region with a pattern. */
module SramCommand {
  import opened Bytes
  import opened HexText
  import opened SramCapture

  const COMMAND_BYTES := 32

  predicate IsLineEnd(c: char) {
    c == '\r' || c == '\n'
  }

  /** The memory's faults: cells that keep a value of their own whatever is
      written to them. */
  type Memory = map<nat, byte>

  /** What cell i holds after a write. */
  function Stored(m: Memory, i: nat, v: byte): byte {
    if i in m then m[i] else v
  }

  /** Reading the region back finds the pattern everywhere. */
  predicate Takes(m: Memory, pattern: byte) {
    forall i: nat :: i < REGION_BYTES && i in m ==> m[i] == pattern
  }

  datatype Event = Armed(pattern: byte, verified: bool) | Invalid

  /** The pattern a seven-character command asks for. */
  function PatternOf(command: string): Option<byte>
    requires |command| == 7
  {
    if command[..5] == "FILL " then ParseHexByte(command[5], command[6]) else None
  }

  /** What is left of a line of any length: every 32nd character empties the
      buffer and is dropped. */
  function Kept(line: string): (r: string)
    ensures |r| == |line| % COMMAND_BYTES
  {
    line[|line| - |line| % COMMAND_BYTES..]
  }

  /** The firmware's reaction to a finished line. */
  function Reaction(m: Memory, line: string): Option<Event> {
    var command := Kept(line);
    if |command| == 7 && PatternOf(command).Some? then
      Some(Armed(PatternOf(command).value, Takes(m, PatternOf(command).value)))
    else if command != "" then Some(Invalid)
    else None
  }

  /** The characters since the last line end. */
  function Unfinished(text: string): (line: string)
    ensures |line| <= |text|
  {
    if text == "" || IsLineEnd(text[|text| - 1]) then ""
    else Unfinished(text[..|text| - 1]) + [text[|text| - 1]]
  }

  /** Every reaction to a text typed from an idle console, in order. */
  function Reactions(m: Memory, text: string): seq<Event> {
    if text == "" then []
    else
      var rest, c := text[..|text| - 1], text[|text| - 1];
      Reactions(m, rest) + Report(ReactionTo(m, rest, c))
  }

  /** The region's pattern after a text: the last one accepted. */
  function LastPattern(events: seq<Event>): Option<byte> {
    if events == [] then None
    else if events[|events| - 1].Armed? then Some(events[|events| - 1].pattern)
    else LastPattern(events[..|events| - 1])
  }

  lemma KeptSnoc(line: string, c: char)
    ensures Kept(line + [c]) == if |line| % COMMAND_BYTES == 31 then "" else Kept(line) + [c]
  {
    var n := |line|;
    if n % COMMAND_BYTES == 31 {
      assert (n + 1) % COMMAND_BYTES == 0;
    } else {
      assert (n + 1) % COMMAND_BYTES == n % COMMAND_BYTES + 1;
      var from := n - n % COMMAND_BYTES;
      assert (line + [c])[from..] == line[from..] + [c];
    }
  }

  function ReactionTo(m: Memory, text: string, c: char): Option<Event> {
    if IsLineEnd(c) then Reaction(m, Unfinished(text)) else None
  }

  function Report(e: Option<Event>): seq<Event> {
    if e.Some? then [e.value] else []
  }

  lemma OneMore(m: Memory, text: string, c: char)
    ensures Unfinished(text + [c]) == if IsLineEnd(c) then "" else Unfinished(text) + [c]
    ensures Reactions(m, text + [c]) == Reactions(m, text) + Report(ReactionTo(m, text, c))
  {
    assert (text + [c])[..|text|] == text;
  }

  /** The region holds the last pattern accepted, if one was. */
  predicate Holds(m: Memory, region: seq<byte>, pattern: Option<byte>) {
    pattern.Some? ==> forall i :: 0 <= i < |region| ==> region[i] == Stored(m, i, pattern.value)
  }

  lemma HoldsOn(m: Memory, region: seq<byte>, events: seq<Event>, e: Option<Event>, now: seq<byte>)
    requires Holds(m, region, LastPattern(events))
    requires e.Some? && e.value.Armed? ==> Holds(m, now, Some(e.value.pattern))
    requires !(e.Some? && e.value.Armed?) ==> now == region
    ensures Holds(m, now, LastPattern(events + Report(e)))
  {
    if e.Some? {
      assert (events + [e.value])[..|events|] == events;
    } else {
      assert events + [] == events;
    }
  }

  /** The buffer holds what is left of the line. */
  predicate Buffered(buffer: seq<char>, used: nat, line: string) {
    |buffer| == COMMAND_BYTES && used < COMMAND_BYTES && buffer[..used] == Kept(line)
  }

  class Console {
    const m: Memory
    const region: array<byte>
    const command: array<char>
    var used: nat
    ghost var typed: string

    ghost predicate Valid()
      reads this, command, region
    {
      && region.Length == REGION_BYTES
      && Buffered(command[..], used, Unfinished(typed))
      && Holds(m, region[..], LastPattern(Reactions(m, typed)))
    }

    constructor (m: Memory, region: array<byte>)
      requires region.Length == REGION_BYTES
      ensures Valid() && this.m == m && this.region == region && typed == "" && fresh(command)
    {
      this.m, this.region := m, region;
      command := new char[COMMAND_BYTES];
      used, typed := 0, "";
    }

    /** fill_and_verify: writes the region, then reads it back up to the first
        cell that does not hold the pattern. */
    method FillAndVerify(pattern: byte) returns (valid: bool)
      requires region.Length == REGION_BYTES
      modifies region
      ensures Holds(m, region[..], Some(pattern))
      ensures valid <==> Takes(m, pattern)
    {
      var i := 0;
      while i < region.Length
        invariant 0 <= i <= region.Length
        invariant forall k :: 0 <= k < i ==> region[k] == Stored(m, k, pattern)
        modifies region
      {
        region[i] := Stored(m, i, pattern);
        i := i + 1;
      }
      valid := true;
      i := 0;
      while i < region.Length
        invariant 0 <= i <= region.Length && valid
        invariant forall k :: 0 <= k < region.Length ==> region[k] == Stored(m, k, pattern)
        invariant forall k :: 0 <= k < i ==> region[k] == pattern
      {
        if region[i] != pattern {
          assert i in m && m[i] != pattern;
          valid := false;
          break;
        }
        i := i + 1;
      }
      if valid {
        forall k: nat | k < REGION_BYTES && k in m
          ensures m[k] == pattern
        {
          assert region[k] == Stored(m, k, pattern);
        }
      }
    }

    /** What happens at a line end. */
    method Execute(ghost line: string) returns (e: Option<Event>)
      requires Buffered(command[..], used, line) && region.Length == REGION_BYTES
      modifies this`used, command, region
      ensures used == 0 && e == Reaction(m, line)
      ensures e.Some? && e.value.Armed? ==> Holds(m, region[..], Some(e.value.pattern))
      ensures !(e.Some? && e.value.Armed?) ==> region[..] == old(region[..])
    {
      ghost var kept := Kept(line);
      assert command[..used] == kept;
      var pattern: Option<byte> := None;
      if used == 7 {
        assert command[..5] == kept[..5] && command[5] == kept[5] && command[6] == kept[6];
        if command[..5] == "FILL " {
          pattern := ParseHexByte(command[5], command[6]);
        }
      }
      command[used] := '\0';
      if pattern.Some? {
        var valid := FillAndVerify(pattern.value);
        e := Some(Armed(pattern.value, valid));
      } else if used != 0 {
        e := Some(Invalid);
      } else {
        e := None;
      }
      used := 0;
    }

    /** What happens to any other character. */
    method Store(c: char, ghost line: string)
      requires Buffered(command[..], used, line)
      modifies this`used, command
      ensures Buffered(command[..], used, line + [c])
    {
      KeptSnoc(line, c);
      if used + 1 < COMMAND_BYTES {
        ghost var was := command[..used];
        command[used] := c;
        assert command[..][..used + 1] == was + [c];
        used := used + 1;
      } else {
        used := 0;
      }
    }

    /** One character from the console. */
    method Receive(c: char) returns (e: Option<Event>)
      requires Valid()
      modifies this, command, region
      ensures Valid() && typed == old(typed) + [c]
      ensures e == ReactionTo(m, old(typed), c)
      ensures Reactions(m, typed) == Reactions(m, old(typed)) + Report(e)
    {
      OneMore(m, typed, c);
      ghost var was, line := region[..], Unfinished(typed);
      if IsLineEnd(c) {
        e := Execute(line);
      } else {
        Store(c, line);
        e := None;
      }
      HoldsOn(m, was, Reactions(m, typed), e, region[..]);
      typed := typed + [c];
    }
  }

  // ------------------------------------------------------------ what arms a pattern

  /** arm_pattern's command, without its line end. */
  function FillCommand(pattern: byte): (s: string)
    ensures |s| == 7
  {
    "FILL " + HexOfByte(pattern)
  }

  lemma FillCommandParses(pattern: byte)
    ensures PatternOf(FillCommand(pattern)) == Some(pattern)
  {
    HexByteRoundTrip(pattern);
    assert FillCommand(pattern)[..5] == "FILL ";
  }

  lemma ReactionBehind(m: Memory, junk: string, pattern: byte)
    ensures Reaction(m, junk + FillCommand(pattern)) ==
      if |junk| % COMMAND_BYTES == 0 then Some(Armed(pattern, Takes(m, pattern)))
      else if |junk| % COMMAND_BYTES == 25 then None
      else Some(Invalid)
  {
    var line := junk + FillCommand(pattern);
    var r := |junk| % COMMAND_BYTES;
    if r == 0 {
      assert |line| % COMMAND_BYTES == 7;
      assert Kept(line) == FillCommand(pattern);
      FillCommandParses(pattern);
    } else if r < 25 {
      assert |line| % COMMAND_BYTES == r + 7;
    } else {
      assert |line| % COMMAND_BYTES == r - 25;
    }
  }

  lemma NotLineEnd(m: Memory, text: string, c: char)
    requires !IsLineEnd(c)
    ensures Unfinished(text + [c]) == Unfinished(text) + [c]
    ensures Reactions(m, text + [c]) == Reactions(m, text)
  {
    OneMore(m, text, c);
  }

  lemma {:induction false} NoLineEnd(m: Memory, text: string, s: string)
    requires forall i :: 0 <= i < |s| ==> !IsLineEnd(s[i])
    ensures Unfinished(text + s) == Unfinished(text) + s
    ensures Reactions(m, text + s) == Reactions(m, text)
    decreases |s|
  {
    if s == "" {
      assert text + s == text;
    } else {
      var rest, c := s[..|s| - 1], s[|s| - 1];
      assert text + s == text + rest + [c];
      assert Unfinished(text) + rest + [c] == Unfinished(text) + s;
      NoLineEnd(m, text, rest);
      NotLineEnd(m, text + rest, c);
    }
  }

  /** The host's command after anything typed before: the firmware arms exactly
      that pattern if and only if the characters already on the line are a
      multiple of 32.  At the 25th it goes unanswered, otherwise it is refused. */
  lemma ArmsIff(m: Memory, text: string, pattern: byte)
    ensures
      var r := |Unfinished(text)| % COMMAND_BYTES;
      Reactions(m, text + FillCommand(pattern) + "\n") == Reactions(m, text) + Report(
        if r == 0 then Some(Armed(pattern, Takes(m, pattern))) else if r == 25 then None else Some(Invalid))
  {
    var command := FillCommand(pattern);
    assert forall i :: 0 <= i < 5 ==> !IsLineEnd("FILL "[i]);
    assert command[5] == HexDigit(pattern / 16) && command[6] == HexDigit(pattern % 16);
    NoLineEnd(m, text, command);
    OneMore(m, text + command, '\n');
    assert text + command + "\n" == text + command + ['\n'];
    ReactionBehind(m, Unfinished(text), pattern);
  }

  /** No other text arms a pattern: the firmware accepts a line exactly when its
      length is 7 modulo 32 and its last seven characters are "FILL " and two
      hexadecimal digits. */
  lemma AcceptedIff(m: Memory, line: string, pattern: byte)
    ensures Reaction(m, line) == Some(Armed(pattern, Takes(m, pattern))) <==>
      && |line| % COMMAND_BYTES == 7
      && line[|line| - 7..|line| - 2] == "FILL "
      && ParseHexByte(line[|line| - 2], line[|line| - 1]) == Some(pattern)
  {
    var n := |line|;
    if n % COMMAND_BYTES == 7 {
      var command := Kept(line);
      assert command == line[n - 7..];
      assert command[..5] == line[n - 7..n - 2];
      assert command[5] == line[n - 2] && command[6] == line[n - 1];
    }
  }
}
