/**
  The producer's configuration file: its key=value lines, and the restart position kept in it as
  two numbers around a slash.
 */
module ConfigManager {
  import opened Bytes
  import opened Numerals

  // ----- Lines -----

  /** `getline` until it fails: a final newline does not start another line. */
  function Lines(text: string): seq<string>
    decreases |text|
  {
    if text == "" then [] else [FirstLine(text)] + Lines(AfterLine(text))
  }

  function Find(text: string, c: char): (n: nat)
    ensures n <= |text|
    ensures n < |text| ==> text[n] == c
    ensures forall i | 0 <= i < n :: text[i] != c
  {
    if text == "" || text[0] == c then 0 else 1 + Find(text[1..], c)
  }

  function FirstLine(text: string): string {
    text[..Find(text, '\n')]
  }

  function AfterLine(text: string): (rest: string)
    ensures text != "" ==> |rest| < |text|
  {
    var n := Find(text, '\n');
    if n == |text| then "" else text[n + 1..]
  }

  // ----- One line -----

  predicate IsBlank(c: char) {
    c == ' ' || c == '\t' || c == '\n' || c == '\r'
  }

  /** Cut off blanks at both ends. */
  function Trim(s: string): (r: string)
    ensures |r| <= |s|
  {
    if s == "" then ""
    else if IsBlank(s[0]) then Trim(s[1..])
    else if IsBlank(s[|s| - 1]) then Trim(s[..|s| - 1])
    else s
  }

  predicate Trimmed(s: string) {
    s != "" ==> !IsBlank(s[0]) && !IsBlank(s[|s| - 1])
  }

  /** Comments, lines without an equals sign and lines with a blank key are skipped. */
  function Entry(line: string): Option<(string, string)> {
    var n := Find(line, '=');
    if line == "" || line[0] == '#' || n == |line| then None
    else
      var key, value := Trim(line[..n]), Trim(line[n + 1..]);
      if key == "" then None else Some((key, value))
  }

  type Values = map<string, string>

  function Added(values: Values, line: string): Values {
    match Entry(line)
    case None => values
    case Some((key, value)) => values[key := value]
  }

  function Loaded(values: Values, lines: seq<string>): Values
    decreases |lines|
  {
    if lines == [] then values else Loaded(Added(values, lines[0]), lines[1..])
  }

  // ----- Numbers -----

  function DigitSpan(s: string): (n: nat)
    ensures n <= |s|
    ensures forall c | c in s[..n] :: IsDigit(c)
    ensures n < |s| ==> !IsDigit(s[n])
    ensures n == |s| <==> forall c | c in s :: IsDigit(c)
  {
    if s == "" || !IsDigit(s[0]) then 0
    else
      var n := 1 + DigitSpan(s[1..]);
      assert s[..n] == [s[0]] + s[1..][..n - 1];
      n
  }

  predicate IsSpace(c: char) {
    c == ' ' || 9 <= c as int <= 13
  }

  function Unspaced(s: string): string {
    if s != "" && IsSpace(s[0]) then Unspaced(s[1..]) else s
  }

  /** `stoul` in base ten: leading space, a sign, and what follows the digits are all accepted. */
  function Stoul(s: string): Option<uint64> {
    var s := Unspaced(s);
    var negative := s != "" && s[0] == '-';
    var s := if negative || (s != "" && s[0] == '+') then s[1..] else s;
    var n := DigitSpan(s);
    if n == 0 then None
    else
      var v := Value(s[..n], 10);
      if v >= 0x1_0000_0000_0000_0000 then None
      else if negative && v > 0 then Some(0x1_0000_0000_0000_0000 - v)
      else Some(v)
  }

  /** Both numbers are cut to 32 bits; without a slash both are zero; no number is an exception. */
  function ParsedLsn(text: string): Option<(uint32, uint32)> {
    var slash := Find(text, '/');
    if slash == |text| then Some((0, 0))
    else
      match (Stoul(text[..slash]), Stoul(text[slash + 1..]))
      case (Some(high), Some(low)) => Some((high % 0x1_0000_0000, low % 0x1_0000_0000))
      case _ => None
  }

  // ----- The code -----

  class ConfigManager {
    var values: Values

    /** Reading the file's text line by line. */
    method Load(text: string)
      modifies this
      ensures values == Loaded(old(values), Lines(text))
    {
      var rest := text;
      while rest != ""
        invariant Loaded(values, Lines(rest)) == Loaded(old(values), Lines(text))
        decreases |rest|
      {
        var line := FirstLine(rest);
        rest := AfterLine(rest);
        if line == "" || line[0] == '#' {
          continue;
        }
        var eq := Find(line, '=');
        if eq == |line| {
          continue;
        }
        var key, value := Trim(line[..eq]), Trim(line[eq + 1..]);
        if key == "" {
          continue;
        }
        values := values[key := value];
      }
    }

    static method ParseLsn(text: string) returns (high: uint32, low: uint32, ok: bool)
      ensures ParsedLsn(text) == if ok then Some((high, low)) else None
    {
      high, low, ok := 0, 0, true;
      var slash := Find(text, '/');
      if slash == |text| {
        return;
      }
      var first := Stoul(text[..slash]);
      if first == None {
        ok := false;
        return;
      }
      high := first.value % 0x1_0000_0000;
      var second := Stoul(text[slash + 1..]);
      if second == None {
        ok := false;
        return;
      }
      low := second.value % 0x1_0000_0000;
    }
  }

  // ----- Printed entries load back -----

  lemma {:induction false} TrimKeepsTrimmed(s: string)
    ensures Trim(s) == s <==> Trimmed(s)
    decreases |s|
  {
    if s != "" && IsBlank(s[0]) {
      assert |Trim(s[1..])| < |s|;
    } else if s != "" && IsBlank(s[|s| - 1]) {
      assert |Trim(s[..|s| - 1])| < |s|;
    }
  }

  predicate PlainKey(key: string) {
    key != "" && '=' !in key && key[0] != '#' && Trimmed(key)
  }

  function EntryText(key: string, value: string): string {
    key + "=" + value
  }

  /** A printed entry loads back exactly when key and value are trimmed and the key is plain. */
  lemma EntryRoundTrip(key: string, value: string)
    ensures Entry(EntryText(key, value)) == Some((key, value)) <==> PlainKey(key) && Trimmed(value)
  {
    var line := EntryText(key, value);
    var n := Find(line, '=');
    assert line[|key|] == '=';
    TrimKeepsTrimmed(key);
    TrimKeepsTrimmed(value);
    if '=' in key {
      var i :| 0 <= i < |key| && key[i] == '=';
      assert line[i] == '=';
      assert |Trim(line[..n])| < |key|;
    } else {
      assert n == |key|;
      assert line[..n] == key && line[n + 1..] == value;
    }
  }

  // ----- What is cut off and skipped -----

  /** Nothing but blanks. */
  predicate Blank(s: string) {
    forall c | c in s :: c in {' ', '\t', '\n', '\r'}
  }

  /** Empty, or with something else than a blank at either end. */
  predicate Solid(s: string) {
    s == "" || (s[0] !in {' ', '\t', '\n', '\r'} && s[|s| - 1] !in {' ', '\t', '\n', '\r'})
  }

  lemma PartIsBlank(s: string, i: nat, j: nat)
    requires i <= j <= |s| && Blank(s)
    ensures Blank(s[i..j])
    ensures i == 0 ==> s[..j] == s[i..j]
    ensures j == |s| ==> s[i..] == s[i..j]
  {
    forall c | c in s[i..j]
      ensures c in s
    {
    }
  }

  /** Blanks around a text are cut off, and nothing else. */
  lemma {:induction false} TrimCutsBlanks(front: string, s: string, back: string)
    requires Blank(front) && Solid(s) && Blank(back)
    ensures Trim(front + s + back) == s
    decreases |front| + |back|
  {
    var text := front + s + back;
    if front != "" {
      assert text[0] == front[0] && front[0] in front;
      assert text[1..] == front[1..] + s + back;
      PartIsBlank(front, 1, |front|);
      TrimCutsBlanks(front[1..], s, back);
    } else if back != "" && s != "" {
      assert text[|text| - 1] == back[|back| - 1] && back[|back| - 1] in back;
      assert text[..|text| - 1] == front + s + back[..|back| - 1];
      PartIsBlank(back, 0, |back| - 1);
      TrimCutsBlanks(front, s, back[..|back| - 1]);
    } else if back != "" {
      assert text[0] == back[0] && back[0] in back;
      assert text[1..] == front + s + back[1..];
      PartIsBlank(back, 1, |back|);
      TrimCutsBlanks(front, s, back[1..]);
    } else {
      assert text == s;
    }
  }

  /** Blanks around key and value do not count; a line without a key gives nothing. */
  lemma EntryWithBlanks(a: string, key: string, b: string, c: string, value: string, d: string)
    requires Blank(a) && Blank(b) && Blank(c) && Blank(d) && Solid(key) && Solid(value) && '=' !in key
    requires a == "" && key != "" ==> key[0] != '#'
    ensures Entry((a + key + b) + "=" + (c + value + d)) == if key == "" then None else Some((key, value))
  {
    var left, right := a + key + b, c + value + d;
    var line := left + "=" + right;
    assert '=' !in left;
    FoundBehind(left, '=', right);
    assert line[..|left|] == left && line[|left| + 1..] == right;
    assert line[0] != '#' by {
      assert a != "" ==> line[0] == a[0] && a[0] in a;
      assert a == "" && key != "" ==> line[0] == key[0];
      assert a == "" && key == "" && b != "" ==> line[0] == b[0] && b[0] in b;
    }
    hide Find, Trim, Blank, Solid;
    TrimCutsBlanks(a, key, b);
    TrimCutsBlanks(c, value, d);
  }

  lemma FoundBehind(front: string, c: char, back: string)
    requires c !in front
    ensures Find(front + [c] + back, c) == |front|
  {
    var text := front + [c] + back;
    assert text[|front|] == c;
    forall i | 0 <= i < |front|
      ensures text[i] != c
    {
      assert text[i] == front[i] && front[i] in front;
    }
  }

  /** Comments, and lines that assign nothing, are skipped. */
  lemma SkippedLines(values: Values, line: string)
    requires line == "" || line[0] == '#' || '=' !in line
    ensures Entry(line) == None && Loaded(values, [line]) == values
  {
    assert Entry(line) == None;
    assert Loaded(Added(values, line), []) == Added(values, line);
  }

  /** A last line without a newline is a line like the others; behind a newline there is none. */
  lemma {:induction false} LastLine(lines: seq<string>, last: string)
    requires AllWhole(lines) && '\n' !in last
    ensures Lines(LinesText(lines) + last) == lines + if last == "" then [] else [last]
    decreases |lines|
  {
    if lines == [] {
      assert LinesText(lines) + last == last;
      LineAlone(last);
    } else {
      var line, rest := lines[0], LinesText(lines[1..]) + last;
      assert LinesText(lines) + last == line + ("\n" + rest);
      assert lines == [line] + lines[1..];
      AllWholeFirst(lines);
      hide Lines, FirstLine, AfterLine, LinesText, AllWhole;
      LastLine(lines[1..], last);
      LineInFront(line, rest);
    }
  }

  lemma LineInFront(line: string, rest: string)
    requires '\n' !in line
    ensures Lines(line + ("\n" + rest)) == [line] + Lines(rest)
  {
    FirstLineOf(line, rest);
    assert line + ("\n" + rest) != "";
    hide FirstLine, AfterLine;
  }

  lemma LineAlone(last: string)
    requires '\n' !in last
    ensures Lines(last) == if last == "" then [] else [last]
  {
    NotFound(last, '\n');
    assert last[..|last|] == last;
    assert Lines("") == [];
  }

  lemma {:induction false} NotFound(text: string, c: char)
    requires c !in text
    ensures Find(text, c) == |text|
    decreases |text|
  {
    if text != "" {
      assert text[0] in text && c !in text[1..];
      NotFound(text[1..], c);
    }
  }

  function LinesText(lines: seq<string>): string {
    if lines == [] then "" else lines[0] + ("\n" + LinesText(lines[1..]))
  }

  /** The first line is cut at its first newline. */
  lemma FirstLineOf(line: string, more: string)
    ensures FirstLine(line + ("\n" + more)) == line <==> '\n' !in line
    ensures '\n' !in line ==> AfterLine(line + ("\n" + more)) == more
  {
    var text := line + ("\n" + more);
    var n := Find(text, '\n');
    assert text[|line|] == '\n';
    if '\n' in line {
      var i :| 0 <= i < |line| && line[i] == '\n';
      assert text[i] == '\n';
      assert |FirstLine(text)| < |line|;
    } else {
      forall i | 0 <= i < |line|
        ensures text[i] != '\n'
      {
        assert text[i] == line[i] && line[i] in line;
      }
      assert n == |line|;
    }
  }

  ghost predicate AllWhole(lines: seq<string>) {
    forall i | 0 <= i < |lines| :: '\n' !in lines[i]
  }

  lemma AllWholeFirst(lines: seq<string>)
    requires lines != []
    ensures AllWhole(lines) <==> '\n' !in lines[0] && AllWhole(lines[1..])
  {
    var rest := lines[1..];
    if AllWhole(lines) {
      forall i | 0 <= i < |rest| ensures '\n' !in rest[i] {
        assert rest[i] == lines[i + 1];
      }
    }
    if '\n' !in lines[0] && AllWhole(rest) {
      forall i | 0 <= i < |lines| ensures '\n' !in lines[i] {
        assert i > 0 ==> lines[i] == rest[i - 1];
      }
    }
  }

  /** Lines come back exactly as printed if, and only if, none of them contains a newline. */
  lemma {:induction false} LinesRoundTrip(lines: seq<string>)
    ensures Lines(LinesText(lines)) == lines <==> AllWhole(lines)
    decreases |lines|
  {
    if lines != [] {
      var line, rest := lines[0], lines[1..];
      var text := LinesText(lines);
      assert text == line + ("\n" + LinesText(rest)) && text != "";
      assert Lines(text) == [FirstLine(text)] + Lines(AfterLine(text));
      hide AllWhole, Lines, FirstLine, AfterLine, LinesText;
      FirstLineOf(line, LinesText(rest));
      AllWholeFirst(lines);
      LinesRoundTrip(rest);
      SplitsOff(Lines(text), FirstLine(text), Lines(AfterLine(text)), lines);
    }
  }

  lemma SplitsOff(all: seq<string>, first: string, rest: seq<string>, lines: seq<string>)
    requires all == [first] + rest && lines != []
    ensures all == lines <==> first == lines[0] && rest == lines[1..]
  {
    assert lines == [lines[0]] + lines[1..];
    assert all[0] == first && all[1..] == rest;
  }

  function EntryLines(entries: seq<(string, string)>): (lines: seq<string>)
    ensures |lines| == |entries| && forall i | 0 <= i < |lines| :: lines[i] == EntryText(entries[i].0, entries[i].1)
  {
    if entries == [] then [] else [EntryText(entries[0].0, entries[0].1)] + EntryLines(entries[1..])
  }

  /** The entries that survive printing and loading. */
  predicate PlainEntry(key: string, value: string) {
    PlainKey(key) && Trimmed(value) && '\n' !in key && '\n' !in value
  }

  /** The value of the last entry for a key. */
  function LastValue(entries: seq<(string, string)>, key: string): Option<string> {
    if entries == [] then None
    else
      var last := entries[|entries| - 1];
      if last.0 == key then Some(last.1) else LastValue(entries[..|entries| - 1], key)
  }

  lemma {:induction false} LoadedAppend(values: Values, lines: seq<string>, line: string)
    ensures Loaded(values, lines + [line]) == Added(Loaded(values, lines), line)
    decreases |lines|
  {
    if lines == [] {
      assert lines + [line] == [line];
    } else {
      assert (lines + [line])[1..] == lines[1..] + [line];
      LoadedAppend(Added(values, lines[0]), lines[1..], line);
    }
  }

  lemma {:induction false} EntriesLoaded(entries: seq<(string, string)>, key: string)
    requires forall i | 0 <= i < |entries| :: PlainEntry(entries[i].0, entries[i].1)
    ensures var values := Loaded(map[], EntryLines(entries));
            (if key in values then Some(values[key]) else None) == LastValue(entries, key)
    decreases |entries|
  {
    if entries != [] {
      var front, last := entries[..|entries| - 1], entries[|entries| - 1];
      assert EntryLines(entries) == EntryLines(front) + [EntryText(last.0, last.1)];
      EntriesLoaded(front, key);
      LoadedAppend(map[], EntryLines(front), EntryText(last.0, last.1));
      EntryRoundTrip(last.0, last.1);
      hide Entry, EntryText, EntryLines, Loaded, PlainKey, Trimmed;
    }
  }

  /** A file of plain entries loads as the map in which every key has the value of its last entry. */
  lemma {:induction false} LoadRoundTrip(entries: seq<(string, string)>)
    requires forall i | 0 <= i < |entries| :: PlainEntry(entries[i].0, entries[i].1)
    ensures var values := Loaded(map[], Lines(LinesText(EntryLines(entries))));
            forall key: string :: (if key in values then Some(values[key]) else None) == LastValue(entries, key)
  {
    var lines := EntryLines(entries);
    forall i | 0 <= i < |lines|
      ensures '\n' !in lines[i]
    {
      assert PlainEntry(entries[i].0, entries[i].1);
    }
    LinesRoundTrip(lines);
    forall key: string
      ensures var values := Loaded(map[], lines);
              (if key in values then Some(values[key]) else None) == LastValue(entries, key)
    {
      EntriesLoaded(entries, key);
    }
  }

  // ----- The restart position as text -----

  /** As the producer prints it for START_REPLICATION. */
  function LsnText(high: uint32, low: uint32): string {
    Digits(high) + "/" + Digits(low)
  }

  lemma StoulReadsDigits(n: uint32)
    ensures Stoul(Digits(n)) == Some(n)
  {
    var s := Digits(n);
    DigitsValue(n, 10);
    assert s[0] in s;
    assert Unspaced(s) == s;
    assert s[..|s|] == s;
  }

  /**
    `stoul` on any text, taken apart: space, a sign or none, digits or none, and what follows. There is
    no number without a digit or beyond 64 bits, and a minus sign counts down from 2^64.
   */
  lemma StoulReads(space: string, sign: string, digits: string, rest: string)
    requires forall c | c in space :: c in {' ', '\t', '\n', '\r', 11 as char, 12 as char}
    requires sign in {"", "-", "+"} && (forall c | c in digits :: '0' <= c <= '9')
    requires rest != "" ==> !('0' <= rest[0] <= '9')
    requires sign == "" && digits == "" && rest != "" ==>
               rest[0] !in {' ', '\t', '\n', '\r', 11 as char, 12 as char, '-', '+'}
    ensures Stoul(space + (sign + (digits + rest)))
         == if digits == "" || Value(digits, 10) >= 0x1_0000_0000_0000_0000 then None
            else if sign == "-" && Value(digits, 10) > 0 then Some(0x1_0000_0000_0000_0000 - Value(digits, 10))
            else Some(Value(digits, 10))
  {
    var signed := sign + (digits + rest);
    assert signed != "" ==> !IsSpace(signed[0]) by {
      assert digits != "" ==> digits[0] in digits;
      assert sign == "" ==> signed == digits + rest;
    }
    assert (forall c | c in space :: IsSpace(c)) && forall c | c in digits :: IsDigit(c);
    assert sign == "" && digits == "" && rest != "" ==> !IsSpace(rest[0]);
    assert rest != "" ==> !IsDigit(rest[0]);
    hide *;
    SpaceSkipped(space, signed);
    SignedReads(sign, digits, rest);
  }

  lemma SpaceSkipped(space: string, behind: string)
    requires forall c | c in space :: IsSpace(c)
    requires behind != "" ==> !IsSpace(behind[0])
    ensures Stoul(space + behind) == Stoul(behind)
  {
    UnspacedIs(space, behind);
    hide Unspaced, DigitSpan, Value;
    assert Unspaced(behind) == behind by {
      UnspacedIs("", behind);
      assert "" + behind == behind;
    }
  }

  lemma {:induction false} UnspacedIs(space: string, behind: string)
    requires forall c | c in space :: IsSpace(c)
    requires behind != "" ==> !IsSpace(behind[0])
    ensures Unspaced(space + behind) == behind
    decreases |space|
  {
    if space == "" {
      assert space + behind == behind;
    } else {
      assert space[0] in space && (space + behind)[1..] == space[1..] + behind;
      UnspacedIs(space[1..], behind);
    }
  }

  lemma SignedReads(sign: string, digits: string, rest: string)
    requires sign in {"", "-", "+"} && (forall c | c in digits :: IsDigit(c))
    requires rest != "" ==> !IsDigit(rest[0])
    requires sign == "" && digits == "" && rest != "" ==> !IsSpace(rest[0]) && rest[0] !in {'-', '+'}
    ensures Stoul(sign + (digits + rest))
         == if digits == "" || Value(digits, 10) >= 0x1_0000_0000_0000_0000 then None
            else if sign == "-" && Value(digits, 10) > 0 then Some(0x1_0000_0000_0000_0000 - Value(digits, 10))
            else Some(Value(digits, 10))
  {
    hide *;
    SignTaken(sign, digits, rest);
    SpanIs(digits, rest);
    BehindSign(sign + (digits + rest), digits + rest);
  }

  lemma SignTaken(sign: string, digits: string, rest: string)
    requires sign in {"", "-", "+"} && (forall c | c in digits :: IsDigit(c))
    requires sign == "" && digits == "" && rest != "" ==> !IsSpace(rest[0]) && rest[0] !in {'-', '+'}
    ensures var text, tail := sign + (digits + rest), digits + rest;
            && Unspaced(text) == text && tail[..|digits|] == digits
            && tail == (if text != "" && text[0] in {'-', '+'} then text[1..] else text)
            && (digits != "" ==> (text[0] == '-' <==> sign == "-"))
  {
    var text, tail := sign + (digits + rest), digits + rest;
    assert digits != "" ==> digits[0] in digits;
    if sign == "" {
      assert text == tail;
    } else {
      assert text[0] == sign[0] && text[1..] == tail;
    }
  }

  /** With the space gone: the sign, then the digits as far as they go. */
  lemma BehindSign(text: string, tail: string)
    requires Unspaced(text) == text
    requires tail == if text != "" && text[0] in {'-', '+'} then text[1..] else text
    ensures var digits := tail[..DigitSpan(tail)];
            Stoul(text)
            == if digits == "" || Value(digits, 10) >= 0x1_0000_0000_0000_0000 then None
               else if text[0] == '-' && Value(digits, 10) > 0 then Some(0x1_0000_0000_0000_0000 - Value(digits, 10))
               else Some(Value(digits, 10))
  {
    hide Unspaced, DigitSpan, Value;
  }

  lemma {:induction false} SpanIs(digits: string, rest: string)
    requires forall c | c in digits :: IsDigit(c)
    requires rest != "" ==> !IsDigit(rest[0])
    ensures DigitSpan(digits + rest) == |digits|
    decreases |digits|
  {
    if digits == "" {
      assert digits + rest == rest;
    } else {
      assert digits[0] in digits && (digits + rest)[1..] == digits[1..] + rest;
      SpanIs(digits[1..], rest);
    }
  }

  /** Two numbers around a slash are cut to 32 bits; a half that is no number is an exception; no slash gives zeros. */
  lemma ParsedHalves(a: string, b: string)
    requires '/' !in a
    ensures ParsedLsn(a + "/" + b)
         == if Stoul(a) == None || Stoul(b) == None then None
            else Some((Stoul(a).value % 0x1_0000_0000, Stoul(b).value % 0x1_0000_0000))
    ensures ParsedLsn(a) == Some((0, 0))
  {
    SplitAtSlash(a, b);
    NotFound(a, '/');
    hide Find, Stoul;
  }

  lemma SplitAtSlash(a: string, b: string)
    requires '/' !in a
    ensures var text := a + "/" + b;
            var n := Find(text, '/');
            n < |text| && text[..n] == a && text[n + 1..] == b
  {
    var text := a + "/" + b;
    assert text[|a|] == '/';
    forall i | 0 <= i < |a|
      ensures text[i] != '/'
    {
      assert text[i] == a[i] && a[i] in a;
    }
  }

  lemma SlashFound(high: uint32, low: uint32)
    ensures var text := LsnText(high, low);
            var n := Find(text, '/');
            n < |text| && text[..n] == Digits(high) && text[n + 1..] == Digits(low)
  {
    DigitsValue(high, 10);
    hide Digits, Find;
    SplitAtSlash(Digits(high), Digits(low));
  }

  /** Parsing undoes the producer's own printing, for every pair of 32-bit halves. */
  lemma LsnRoundTrip(high: uint32, low: uint32)
    ensures ParsedLsn(LsnText(high, low)) == Some((high, low))
  {
    hide Digits, Find, Stoul, LsnText;
    SlashFound(high, low);
    StoulReadsDigits(high);
    StoulReadsDigits(low);
  }

  /**
    Half of an LSN on the server's side: up to eight hexadecimal digits, as in the text form of
    `pg_lsn`. That a longer half is rejected, rather than cut to its low 32 bits, is assumed.
   */
  function HexHalf(s: string): Option<uint32> {
    if 1 <= |s| <= 8 && (forall c | c in s :: IsHexDigit(c)) && Value(s, 16) < 0x1_0000_0000
        then Some(Value(s, 16)) else None
  }

  /** What START_REPLICATION makes of a position: two hexadecimal numbers around a slash. */
  function ServerLsn(text: string): Option<(uint32, uint32)> {
    var slash := Find(text, '/');
    if slash == |text| then None
    else
      match (HexHalf(text[..slash]), HexHalf(text[slash + 1..]))
      case (Some(high), Some(low)) => Some((high, low))
      case _ => None
  }

  lemma HexHalfOfDigits(n: uint32)
    ensures HexHalf(Digits(n)) == Some(n) <==> n < 10
  {
    DigitsValue(n, 16);
    ShortDigits(n);
    hide Digits, Value;
  }

  lemma ServerReadsHalves(high: uint32, low: uint32)
    ensures ServerLsn(LsnText(high, low))
         == if HexHalf(Digits(high)).Some? && HexHalf(Digits(low)).Some?
            then Some((HexHalf(Digits(high)).value, HexHalf(Digits(low)).value)) else None
  {
    SlashFound(high, low);
    hide Find, LsnText, Digits, HexHalf;
  }

  /** The server takes the printed position for the one that was meant exactly if both halves are below ten. */
  lemma ServerReadsPosition(high: uint32, low: uint32)
    ensures ServerLsn(LsnText(high, low)) == Some((high, low)) <==> high < 10 && low < 10
  {
    hide *;
    ServerReadsHalves(high, low);
    HexHalfOfDigits(high);
    HexHalfOfDigits(low);
  }

  /** The failing input: the producer's 0/10 is the server's position 16. */
  lemma TenIsSixteen()
    ensures ServerLsn(LsnText(0, 10)) == Some((0, 16))
  {
    assert HexHalf("0") == Some(0) && HexHalf("10") == Some(16) by {
      TwoDigits();
    }
    hide *;
    TwoDigits();
    ServerReadsHalves(0, 10);
  }

  lemma TwoDigits()
    ensures Digits(0) == "0" && Digits(10) == "10"
    ensures Value("0", 16) == 0 && Value("10", 16) == 16
  {
    assert Digits(10) == Digits(1) + ['0'] && Digits(1) == "1";
    hide Digits;
    assert "10"[..1] == "1" && "1"[..0] == "" && "0"[..0] == "";
    assert Value("", 16) == 0;
    assert Value("1", 16) == Value("", 16) * 16 + 1;
    assert Value("10", 16) == Value("1", 16) * 16 + 0;
  }
}
