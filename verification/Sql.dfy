/**
  The SQL the consumer sends: a printer with proper quoting, and the reader that stands for the
  server's parser. The reader knows the statement forms the writer aims at; any other text is an
  error. A word is an unquoted identifier, a number or a keyword, in ASCII.
 */
module Sql {
  import opened Bytes
  import opened Counted
  import opened Identifiers

  datatype Verb = Create | Insert | Delete | Update

  datatype Literal = Quoted(text: string) | Bare(word: string)

  datatype Item =
    | Name(name: string)                       // "name"
    | Def(name: string, word: string)          // "name" TYPE
    | Assign(name: string, literal: Literal)   // "name" = literal
    | Lit(literal: Literal)                    // literal

  /** All four statements: a table and one or two comma lists. */
  datatype Statement = Statement(verb: Verb, table: string, first: seq<Item>, second: seq<Item>)

  function Lead(verb: Verb): string {
    match verb
    case Create => "CREATE TABLE IF NOT EXISTS "
    case Insert => "INSERT INTO "
    case Delete => "DELETE FROM "
    case Update => "UPDATE "
  }

  function Open(verb: Verb): string {
    match verb
    case Create => " ("
    case Insert => " ("
    case Delete => " WHERE "
    case Update => " SET "
  }

  predicate TwoLists(verb: Verb) {
    verb == Insert || verb == Update
  }

  function Between(verb: Verb): string {
    if verb == Insert then ") VALUES (" else " WHERE "
  }

  function Close(verb: Verb): string {
    if verb == Create || verb == Insert then ")" else ""
  }

  predicate IsWordChar(c: char) {
    'a' <= c <= 'z' || 'A' <= c <= 'Z' || '0' <= c <= '9' || c == '_' || c == '-'
  }

  predicate IsWord(s: string) {
    s != "" && forall c | c in s :: IsWordChar(c)
  }

  /** A word that can name a table without quotes. */
  predicate IsIdentifier(s: string) {
    IsWord(s) && !('0' <= s[0] <= '9') && '-' !in s && !IsReserved(s)
  }

  predicate IsLiteral(l: Literal) {
    l.Bare? ==> IsWord(l.word)
  }

  predicate IsItem(i: Item) {
    match i
    case Name(_) => true
    case Def(_, word) => IsWord(word)
    case Assign(_, literal) => IsLiteral(literal)
    case Lit(literal) => IsLiteral(literal)
  }

  predicate AreItems(items: seq<Item>) {
    items != [] && forall i | i in items :: IsItem(i)
  }

  /** Statements that have a text: words where words belong, and no empty list. */
  predicate IsStatement(s: Statement) {
    IsIdentifier(s.table) && AreItems(s.first) && (if TwoLists(s.verb) then AreItems(s.second) else s.second == [])
  }

  // ----- Printing -----

  function Doubled(q: char, s: string): string {
    if s == "" then "" else (if s[0] == q then [q, q] else [s[0]]) + Doubled(q, s[1..])
  }

  function Delimited(q: char, s: string): string {
    [q] + Doubled(q, s) + [q]
  }

  function PrintLiteral(l: Literal): string {
    match l
    case Quoted(text) => Delimited('\'', text)
    case Bare(word) => word
  }

  function PrintItem(i: Item): string {
    match i
    case Name(name) => Delimited('"', name)
    case Def(name, word) => Delimited('"', name) + (" " + word)
    case Assign(name, literal) => Delimited('"', name) + (" = " + PrintLiteral(literal))
    case Lit(literal) => PrintLiteral(literal)
  }

  function Join(parts: seq<string>): string {
    if parts == [] then ""
    else if |parts| == 1 then parts[0]
    else parts[0] + (", " + Join(parts[1..]))
  }

  function PrintItems(items: seq<Item>): string {
    Join(Map(PrintItem, items))
  }

  function Tail(s: Statement): string {
    if TwoLists(s.verb) then Between(s.verb) + (PrintItems(s.second) + Close(s.verb)) else Close(s.verb)
  }

  function Print(s: Statement): string {
    Lead(s.verb) + (s.table + (Open(s.verb) + (PrintItems(s.first) + Tail(s))))
  }

  // ----- Reading -----

  datatype Parse<+T> = Got(value: T, rest: string) | Fail

  function ReadWord(text: string): (r: Parse<string>)
    ensures r.Got? ==> |r.rest| < |text|
  {
    if text == "" || !IsWordChar(text[0]) then Fail
    else
      match ReadWord(text[1..])
      case Fail => Got([text[0]], text[1..])
      case Got(word, rest) => Got([text[0]] + word, rest)
  }

  /** Behind the opening quote: up to the first quote that is not doubled. */
  function ReadDelimited(q: char, text: string): (r: Parse<string>)
    ensures r.Got? ==> |r.rest| < |text|
  {
    if text == "" then Fail
    else if text[0] != q then
      match ReadDelimited(q, text[1..])
      case Fail => Fail
      case Got(s, rest) => Got([text[0]] + s, rest)
    else if |text| > 1 && text[1] == q then
      match ReadDelimited(q, text[2..])
      case Fail => Fail
      case Got(s, rest) => Got([q] + s, rest)
    else Got("", text[1..])
  }

  function ReadLiteral(text: string): (r: Parse<Literal>)
    ensures r.Got? ==> |r.rest| < |text|
  {
    if text != "" && text[0] == '\'' then
      match ReadDelimited('\'', text[1..])
      case Fail => Fail
      case Got(s, rest) => Got(Quoted(s), rest)
    else
      match ReadWord(text)
      case Fail => Fail
      case Got(word, rest) => Got(Bare(word), rest)
  }

  /** What may follow a quoted name decides which item it starts. */
  function ReadAfterName(name: string, rest: string): (r: Parse<Item>)
    ensures r.Got? ==> |r.rest| <= |rest|
  {
    if " = " <= rest then
      match ReadLiteral(rest[3..])
      case Fail => Fail
      case Got(literal, rest') => Got(Assign(name, literal), rest')
    else if |rest| > 1 && rest[0] == ' ' && IsWordChar(rest[1]) then
      match ReadWord(rest[1..])
      case Fail => Fail
      case Got(word, rest') => Got(Def(name, word), rest')
    else Got(Name(name), rest)
  }

  function ReadItem(text: string): (r: Parse<Item>)
    ensures r.Got? ==> |r.rest| < |text|
  {
    if text != "" && text[0] == '"' then
      match ReadDelimited('"', text[1..])
      case Fail => Fail
      case Got(name, rest) => ReadAfterName(name, rest)
    else
      match ReadLiteral(text)
      case Fail => Fail
      case Got(literal, rest) => Got(Lit(literal), rest)
  }

  function ReadItems(text: string): Parse<seq<Item>>
    decreases |text|
  {
    match ReadItem(text)
    case Fail => Fail
    case Got(item, rest) =>
      if ", " <= rest then
        match ReadItems(rest[2..])
        case Fail => Fail
        case Got(items, rest') => Got([item] + items, rest')
      else Got([item], rest)
  }

  function Expect(prefix: string, text: string): Parse<()> {
    if prefix <= text then Got((), text[|prefix|..]) else Fail
  }

  function ReadVerb(verb: Verb, text: string): Option<Statement> {
    match Expect(Lead(verb), text)
    case Fail => None
    case Got(_, rest) => ReadTable(verb, rest)
  }

  function ReadTable(verb: Verb, text: string): Option<Statement> {
    match ReadWord(text)
    case Fail => None
    case Got(table, rest) =>
      match Expect(Open(verb), rest)
      case Fail => None
      case Got(_, rest) => if IsIdentifier(table) then ReadFirst(verb, table, rest) else None
  }

  function ReadFirst(verb: Verb, table: string, text: string): Option<Statement> {
    match ReadItems(text)
    case Fail => None
    case Got(first, rest) => if TwoLists(verb) then ReadSecond(verb, table, first, rest)
                             else if rest == Close(verb) then Some(Statement(verb, table, first, []))
                             else None
  }

  function ReadSecond(verb: Verb, table: string, first: seq<Item>, text: string): Option<Statement> {
    match Expect(Between(verb), text)
    case Fail => None
    case Got(_, rest) =>
      match ReadItems(rest)
      case Fail => None
      case Got(second, rest) =>
        if rest == Close(verb) then Some(Statement(verb, table, first, second)) else None
  }

  function ReadStatement(text: string): Option<Statement> {
    if text == "" then None
    else
      match text[0]
      case 'C' => ReadVerb(Create, text)
      case 'I' => ReadVerb(Insert, text)
      case 'D' => ReadVerb(Delete, text)
      case 'U' => ReadVerb(Update, text)
      case _ => None
  }

  // ----- Refusing -----

  /** A quote, or a word that is no comment. */
  predicate StartsValue(text: string) {
    text != "" && (text[0] == '\'' || IsWordChar(text[0])) && !("--" <= text)
  }

  /**
    Behind SET: no target at all, or a quoted target with a value or a word directly behind it, where
    only an equals sign, a dot or a bracket could follow.
   */
  predicate NoAssignment(text: string) {
    text != "" &&
    if text[0] == ' ' then true
    else if text[0] == '"' then
      match ReadDelimited('"', text[1..])
      case Fail => false
      case Got(_, rest) => StartsValue(rest)
    else false
  }

  /** Behind WHERE: a quoted name compared with a literal whose closing quote is missing. */
  predicate NeverEnds(text: string) {
    text != "" && text[0] == '"' &&
    match ReadDelimited('"', text[1..])
    case Fail => false
    case Got(_, rest) => " = '" <= rest && ReadDelimited('\'', rest[4..]).Fail?
  }

  predicate RefusedAs(verb: Verb, text: string) {
    match Expect(Lead(verb), text)
    case Fail => false
    case Got(_, target) =>
      match ReadWord(target)
      case Fail => false
      case Got(table, rest) =>
        && Open(verb) <= rest && '-' !in table
        && var behind := rest[|Open(verb)|..];
           !IsIdentifier(table) || (verb == Update && NoAssignment(behind)) || (verb == Delete && NeverEnds(behind))
  }

  /**
    The server's parser has stopped at a point where nothing that follows can help: at the name of a
    table that it does not take for one, at an assignment without an equals sign, or at the end of the
    text inside a literal. Of other texts that do not read, nothing is said.
   */
  predicate Refused(text: string) {
    exists verb :: RefusedAs(verb, text)
  }

  // ----- Reading undoes printing -----

  predicate StopsWord(rest: string) {
    rest != "" ==> !IsWordChar(rest[0])
  }

  lemma {:induction false} WordRoundTrip(word: string, rest: string)
    requires IsWord(word) && StopsWord(rest)
    ensures ReadWord(word + rest) == Got(word, rest)
    decreases |word|
  {
    assert word[0] in word;
    assert (word + rest)[1..] == word[1..] + rest;
    assert word == [word[0]] + word[1..];
    if |word| == 1 {
      assert (word + rest)[1..] == rest && word == [word[0]];
      assert ReadWord(rest) == Fail;
    } else {
      WordRoundTrip(word[1..], rest);
    }
  }

  lemma {:induction false} DelimitedRoundTrip(q: char, s: string, rest: string)
    requires rest != "" ==> rest[0] != q
    ensures ReadDelimited(q, Doubled(q, s) + ([q] + rest)) == Got(s, rest)
    decreases |s|
  {
    var text := Doubled(q, s) + ([q] + rest);
    if s == "" {
      assert text == [q] + rest;
    } else {
      DelimitedRoundTrip(q, s[1..], rest);
      assert s == [s[0]] + s[1..];
      var tail := Doubled(q, s[1..]) + ([q] + rest);
      if s[0] == q {
        assert text == [q, q] + tail;
        assert text[2..] == tail;
      } else {
        assert text == [s[0]] + tail;
        assert text[1..] == tail;
      }
    }
  }

  predicate EndsLiteral(l: Literal, rest: string) {
    rest != "" ==> if l.Quoted? then rest[0] != '\'' else !IsWordChar(rest[0])
  }

  lemma QuotedRoundTrip(q: char, s: string, rest: string)
    requires rest != "" ==> rest[0] != q
    ensures var text := Delimited(q, s) + rest;
            text[0] == q && ReadDelimited(q, text[1..]) == Got(s, rest)
  {
    var text := Delimited(q, s) + rest;
    assert text[1..] == Doubled(q, s) + ([q] + rest);
    DelimitedRoundTrip(q, s, rest);
  }

  lemma LiteralRoundTrip(l: Literal, rest: string)
    requires IsLiteral(l) && EndsLiteral(l, rest)
    ensures ReadLiteral(PrintLiteral(l) + rest) == Got(l, rest)
  {
    if l.Quoted? {
      QuotedRoundTrip('\'', l.text, rest);
    } else {
      assert l.word[0] in l.word;
      WordRoundTrip(l.word, rest);
    }
  }

  predicate EndsItem(i: Item, rest: string) {
    match i
    case Name(_) => rest != "" ==> rest[0] != '"' && rest[0] != ' '
    case Def(_, _) => StopsWord(rest)
    case Assign(_, literal) => EndsLiteral(literal, rest)
    case Lit(literal) => EndsLiteral(literal, rest)
  }

  lemma ItemRoundTrip(i: Item, rest: string)
    requires IsItem(i) && EndsItem(i, rest)
    ensures ReadItem(PrintItem(i) + rest) == Got(i, rest)
  {
    match i
    case Lit(literal) =>
      assert (PrintItem(i) + rest)[0] != '"' by {
        if literal.Bare? {
          assert literal.word[0] in literal.word;
        }
      }
      LiteralRoundTrip(literal, rest);
    case Name(name) =>
      QuotedRoundTrip('"', name, rest);
    case Def(name, word) =>
      NamedRoundTrip(name, " " + word, rest);
      DefRoundTrip(name, word, rest);
    case Assign(name, literal) =>
      NamedRoundTrip(name, " = " + PrintLiteral(literal), rest);
      AssignRoundTrip(name, literal, rest);
  }

  lemma NamedRoundTrip(name: string, more: string, rest: string)
    requires more != "" && more[0] != '"'
    ensures ReadItem((Delimited('"', name) + more) + rest) == ReadAfterName(name, more + rest)
  {
    assert (Delimited('"', name) + more) + rest == Delimited('"', name) + (more + rest);
    QuotedRoundTrip('"', name, more + rest);
  }

  lemma DefRoundTrip(name: string, word: string, rest: string)
    requires IsWord(word) && StopsWord(rest)
    ensures ReadAfterName(name, (" " + word) + rest) == Got(Def(name, word), rest)
  {
    var after := (" " + word) + rest;
    assert word[0] in word && after[1] == word[0];
    assert after[1..] == word + rest;
    WordRoundTrip(word, rest);
  }

  lemma AssignRoundTrip(name: string, literal: Literal, rest: string)
    requires IsLiteral(literal) && EndsLiteral(literal, rest)
    ensures ReadAfterName(name, (" = " + PrintLiteral(literal)) + rest) == Got(Assign(name, literal), rest)
  {
    var after := (" = " + PrintLiteral(literal)) + rest;
    assert after == " = " + (PrintLiteral(literal) + rest);
    assert after[3..] == PrintLiteral(literal) + rest;
    LiteralRoundTrip(literal, rest);
  }

  lemma PrintFirst(items: seq<Item>)
    requires |items| > 1
    ensures PrintItems(items) == PrintItem(items[0]) + (", " + PrintItems(items[1..]))
  {
    assert Map(PrintItem, items)[1..] == Map(PrintItem, items[1..]);
  }

  /** What stands behind a list neither extends its last item nor adds another. */
  predicate EndsItems(items: seq<Item>, rest: string) {
    items != [] && EndsItem(items[|items| - 1], rest) && !(", " <= rest)
  }

  lemma {:induction false} ItemsRoundTrip(items: seq<Item>, rest: string)
    requires AreItems(items) && EndsItems(items, rest)
    ensures ReadItems(PrintItems(items) + rest) == Got(items, rest)
    decreases |items|
  {
    var item := items[0];
    assert item in items;
    if |items| == 1 {
      assert items == [item];
      ItemRoundTrip(item, rest);
    } else {
      var more := PrintItems(items[1..]) + rest;
      var after := ", " + more;
      RestOfItems(items, rest);
      CommaEndsItem(item, more);
      hide PrintItem, PrintItems, ReadItem, EndsItem, EndsItems, AreItems;
      assert PrintItems(items) + rest == PrintItem(item) + after by {
        PrintFirst(items);
      }
      ItemRoundTrip(item, after);
      assert after[2..] == more;
      ItemsRoundTrip(items[1..], rest);
      assert [item] + items[1..] == items;
    }
  }

  lemma RestOfItems(items: seq<Item>, rest: string)
    requires |items| > 1 && AreItems(items) && EndsItems(items, rest)
    ensures IsItem(items[0]) && AreItems(items[1..]) && EndsItems(items[1..], rest)
  {
    assert items[0] in items;
    hide IsItem, EndsItem;
    forall i | i in items[1..]
      ensures IsItem(i)
    {
      assert i in items;
    }
  }

  lemma CommaEndsItem(item: Item, more: string)
    ensures EndsItem(item, ", " + more)
  {
    assert (", " + more)[0] == ',';
  }

  lemma ExpectRoundTrip(prefix: string, rest: string)
    ensures Expect(prefix, prefix + rest) == Got((), rest)
  {
    assert (prefix + rest)[|prefix|..] == rest;
  }

  /** No list is followed by something that could be read as part of it. */
  predicate Separated(s: Statement) {
    && EndsItems(s.first, Tail(s))
    && (TwoLists(s.verb) ==> EndsItems(s.second, Close(s.verb)))
  }

  lemma ListsRoundTrip(s: Statement)
    requires IsStatement(s) && Separated(s)
    ensures ReadFirst(s.verb, s.table, PrintItems(s.first) + Tail(s)) == Some(s)
  {
    ItemsRoundTrip(s.first, Tail(s));
    if TwoLists(s.verb) {
      var rest := PrintItems(s.second) + Close(s.verb);
      ItemsRoundTrip(s.second, Close(s.verb));
      ExpectRoundTrip(Between(s.verb), rest);
    }
  }

  lemma OpenStopsWord(verb: Verb, rest: string)
    ensures StopsWord(Open(verb) + rest)
  {
  }

  lemma LeadDecides(verb: Verb, rest: string)
    ensures ReadStatement(Lead(verb) + rest) == ReadVerb(verb, Lead(verb) + rest)
  {
    var text := Lead(verb) + rest;
    LeadStarts(verb, rest);
    hide ReadVerb, Lead;
  }

  lemma LeadStarts(verb: Verb, rest: string)
    ensures var text := Lead(verb) + rest;
            text != ""
                && text[0] == match verb { case Create => 'C' case Insert => 'I' case Delete => 'D' case Update => 'U' }
  {
    var text := Lead(verb) + rest;
    assert |Lead(verb)| > 0 && text[0] == Lead(verb)[0];
  }

  /** A statement's text reads back as the statement. */
  lemma StatementRoundTrip(s: Statement)
    requires IsStatement(s) && Separated(s)
    ensures ReadStatement(Print(s)) == Some(s)
  {
    var lists := PrintItems(s.first) + Tail(s);
    var target := s.table + (Open(s.verb) + lists);
    assert ReadTable(s.verb, target) == Some(s) by {
      OpenStopsWord(s.verb, lists);
      WordRoundTrip(s.table, Open(s.verb) + lists);
      ExpectRoundTrip(Open(s.verb), lists);
      ListsRoundTrip(s);
    }
    assert ReadVerb(s.verb, Lead(s.verb) + target) == Some(s) by {
      ExpectRoundTrip(Lead(s.verb), target);
    }
    LeadDecides(s.verb, target);
  }

  // ----- Only a statement's own text reads as the statement -----

  lemma {:induction false} WordIsPrinted(text: string)
    requires ReadWord(text).Got?
    ensures var r := ReadWord(text); IsWord(r.value) && text == r.value + r.rest
    decreases |text|
  {
    if ReadWord(text[1..]).Got? {
      WordIsPrinted(text[1..]);
    }
  }

  lemma {:induction false} DelimitedIsPrinted(q: char, text: string)
    requires ReadDelimited(q, text).Got?
    ensures var r := ReadDelimited(q, text); text == Doubled(q, r.value) + ([q] + r.rest)
    decreases |text|
  {
    if text[0] != q {
      DelimitedIsPrinted(q, text[1..]);
      var t := ReadDelimited(q, text[1..]);
      assert ReadDelimited(q, text) == Got([text[0]] + t.value, t.rest);
      DoubledPrepend(q, text[0], t.value);
      assert text == [text[0]] + text[1..];
      hide ReadDelimited, Doubled;
    } else if |text| > 1 && text[1] == q {
      DelimitedIsPrinted(q, text[2..]);
      var t := ReadDelimited(q, text[2..]);
      assert ReadDelimited(q, text) == Got([q] + t.value, t.rest);
      DoubledPrepend(q, q, t.value);
      assert text == [q, q] + text[2..];
      hide ReadDelimited, Doubled;
    }
  }

  lemma DoubledPrepend(q: char, c: char, s: string)
    ensures Doubled(q, [c] + s) == (if c == q then [q, q] else [c]) + Doubled(q, s)
  {
    assert ([c] + s)[1..] == s;
  }

  lemma LiteralIsPrinted(text: string)
    requires ReadLiteral(text).Got?
    ensures var r := ReadLiteral(text); IsLiteral(r.value) && text == PrintLiteral(r.value) + r.rest
  {
    if text[0] == '\'' {
      DelimitedIsPrinted('\'', text[1..]);
    } else {
      WordIsPrinted(text);
    }
  }

  lemma AfterNameIsPrinted(name: string, rest: string)
    requires ReadAfterName(name, rest).Got?
    ensures var r := ReadAfterName(name, rest);
            IsItem(r.value) && Delimited('"', name) + rest == PrintItem(r.value) + r.rest
  {
    var r := ReadAfterName(name, rest);
    var quoted := Delimited('"', name);
    match r.value
    case Assign(_, literal) =>
      LiteralIsPrinted(rest[3..]);
      assert rest == " = " + (PrintLiteral(literal) + r.rest);
      Regroup(quoted, " = ", PrintLiteral(literal), r.rest);
    case Def(_, word) =>
      WordIsPrinted(rest[1..]);
      assert rest == " " + (word + r.rest);
      Regroup(quoted, " ", word, r.rest);
    case Name(_) =>
  }

  lemma Regroup(a: string, b: string, c: string, d: string)
    ensures a + (b + (c + d)) == (a + (b + c)) + d
  {
  }

  lemma ItemIsPrinted(text: string)
    requires ReadItem(text).Got?
    ensures var r := ReadItem(text); IsItem(r.value) && text == PrintItem(r.value) + r.rest
  {
    if text[0] == '"' {
      var name := ReadDelimited('"', text[1..]);
      assert text == Delimited('"', name.value) + name.rest by {
        DelimitedIsPrinted('"', text[1..]);
        assert text == ['"'] + text[1..];
        Regroup("", ['"'], Doubled('"', name.value), ['"'] + name.rest);
      }
      AfterNameIsPrinted(name.value, name.rest);
    } else {
      LiteralIsPrinted(text);
    }
  }

  lemma {:induction false} ItemsArePrinted(text: string)
    requires ReadItems(text).Got?
    ensures var r := ReadItems(text); AreItems(r.value) && text == PrintItems(r.value) + r.rest
    decreases |text|
  {
    ItemIsPrinted(text);
    var item := ReadItem(text);
    if ", " <= item.rest {
      var after := item.rest[2..];
      ItemsArePrinted(after);
      var more := ReadItems(after);
      var items := [item.value] + more.value;
      assert items[1..] == more.value;
      PrintFirst(items);
      assert item.rest == ", " + (PrintItems(more.value) + more.rest);
      Regroup(PrintItem(item.value), ", ", PrintItems(more.value), more.rest);
    } else {
      assert [item.value][0] == item.value;
    }
  }

  lemma ExpectIsPrinted(prefix: string, text: string)
    requires Expect(prefix, text).Got?
    ensures text == prefix + Expect(prefix, text).rest
  {
  }

  lemma ListsArePrinted(verb: Verb, table: string, text: string)
    requires ReadFirst(verb, table, text).Some?
    ensures var s := ReadFirst(verb, table, text).value;
            && s.verb == verb && s.table == table
            && AreItems(s.first) && (if TwoLists(verb) then AreItems(s.second) else s.second == [])
            && text == PrintItems(s.first) + Tail(s)
  {
    ItemsArePrinted(text);
    var first := ReadItems(text);
    if TwoLists(verb) {
      ExpectIsPrinted(Between(verb), first.rest);
      ItemsArePrinted(Expect(Between(verb), first.rest).rest);
    }
  }

  lemma VerbIsPrinted(verb: Verb, text: string)
    requires ReadVerb(verb, text).Some?
    ensures var s := ReadVerb(verb, text).value; s.verb == verb && IsStatement(s) && text == Print(s)
  {
    ExpectIsPrinted(Lead(verb), text);
    var target := Expect(Lead(verb), text).rest;
    WordIsPrinted(target);
    var table := ReadWord(target);
    ExpectIsPrinted(Open(verb), table.rest);
    ListsArePrinted(verb, table.value, Expect(Open(verb), table.rest).rest);
  }

  /** If a text reads as a statement, it is that statement's printed form. */
  lemma ReadIsPrinted(text: string)
    requires ReadStatement(text).Some?
    ensures IsStatement(ReadStatement(text).value) && text == Print(ReadStatement(text).value)
  {
    match text[0]
    case 'C' => VerbIsPrinted(Create, text);
    case 'I' => VerbIsPrinted(Insert, text);
    case 'D' => VerbIsPrinted(Delete, text);
    case 'U' => VerbIsPrinted(Update, text);
    case _ =>
  }
}
