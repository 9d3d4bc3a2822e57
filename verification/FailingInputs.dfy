/** Concrete inputs on which the pipeline falls short of what it is for. */
module FailingInputs {
  import opened Bytes
  import opened PgOutput
  import opened WireFormat
  import opened Changes
  import opened Effects
  import opened History
  import opened WriterSql
  import opened Convergence
  import opened Delivery
  import Identifiers
  import Replica
  import Sql

  /** A table `t` whose only column `k` is its key. */
  const TABLE := Relation(1, "public", "t", 'd', [Column(1 as char, "k", 25, -1)])

  lemma KeyWordsDiffer(line: nat)
    ensures forall word | word in Identifiers.KeyWords(line) :: |word| > 1
  {
    match line {
      case 0 =>
      case 1 =>
      case 2 =>
      case 3 =>
      case 4 =>
      case 5 =>
      case 6 =>
      case 7 =>
      case 8 =>
      case 9 =>
      case 10 =>
      case 11 =>
      case 12 =>
      case _ =>
    }
  }

  lemma ColumnsDiffers(line: nat)
    ensures "columns" !in Identifiers.KeyWords(line)
  {
    match line {
      case 0 =>
      case 1 =>
      case 2 =>
      case 3 =>
      case 4 =>
      case 5 =>
      case 6 =>
      case 7 =>
      case 8 =>
      case 9 =>
      case 10 =>
      case 11 =>
      case 12 =>
      case _ =>
    }
  }

  lemma CatalogueNamesDiffer(line: nat)
    ensures forall name | name in Identifiers.CatalogueNames(line) :: |name| > 1
  {
    match line {
      case 0 =>
      case 1 =>
      case 2 =>
      case 3 =>
      case 4 =>
      case 5 =>
      case 6 =>
      case 7 =>
      case 8 =>
      case 9 =>
      case 10 =>
      case 11 =>
      case 12 =>
      case 13 =>
      case 14 =>
      case 15 =>
      case 16 =>
      case _ =>
    }
  }

  /** No key word and no name of the catalogue is a single letter. */
  lemma LetterIsFree(word: string)
    requires |word| == 1
    ensures !Identifiers.IsKeyWord(word) && !Identifiers.IsCatalogued(word)
  {
    hide Identifiers.KeyWords, Identifiers.CatalogueNames;
    forall line: nat
      ensures word !in Identifiers.KeyWords(line)
      ensures word !in Identifiers.CatalogueNames(line)
    {
      KeyWordsDiffer(line);
      CatalogueNamesDiffer(line);
    }
  }

  lemma TableIsPlain()
    ensures GoodSchema(map[1 := TABLE]) && PlainRelation(TABLE)
    ensures TABLE.columns[KeyColumn(TABLE)].name == "k" && KeyColumn(TABLE) == 0
  {
    assert TABLE.columns == [Column(1 as char, "k", 25, -1)];
    assert "t"[0] == 't' && |"t"| == 1 && Identifiers.Folded("t") == "t";
    LetterIsFree("t");
    hide Identifiers.IsKeyWord, Identifiers.IsCatalogued;
  }

  lemma OneMore(schema: Schema, h: seq<Change>, c: Change)
    requires Valid(schema, h) && CanHappen(schema, SourceAfter(h), c)
    ensures Valid(schema, h + [c]) && SourceAfter(h + [c]) == Advance(SourceAfter(h), c)
  {
    assert (h + [c])[..|h|] == h;
  }

  /** A history that ends in an unfaithful change does not converge. */
  lemma UnfaithfulEnd(server: Replica.Server, schema: Schema, h: seq<Change>, c: Change)
    requires GoodSchema(schema) && Valid(schema, h) && (forall d | d in h :: !d.Remove?)
    requires CanHappen(schema, SourceAfter(h), c) && !Faithful(schema, SourceAfter(h), c)
    requires ChangeDecided(server, schema, SourceAfter(h), c)
    ensures Valid(schema, h + [c]) && !Converges(server, schema, h + [c])
  {
    OneMore(schema, h, c);
    assert (h + [c])[..|h|] == h && (h + [c])[|h|] == c;
    hide Valid, SourceAfter, GoodSchema, Faithful, Converges, CanHappen, ChangeDecided;
    assert !FaithfulAt(schema, h + [c], |h|);
    EndDecides(server, schema, h, c);
    ConvergesExactlyIfFaithful(server, schema, h + [c]);
  }

  lemma EndDecides(server: Replica.Server, schema: Schema, h: seq<Change>, c: Change)
    requires Valid(schema, h + [c]) && Valid(schema, h) && (forall d | d in h :: !d.Remove?)
    requires CanHappen(schema, SourceAfter(h), c) && ChangeDecided(server, schema, SourceAfter(h), c)
    ensures AllDecided(server, schema, h + [c])
  {
    hide Valid, SourceAfter, CanHappen;
    forall i | 0 <= i < |h| + 1
      ensures DecidedAt(server, schema, h + [c], i)
    {
      if i < |h| {
        assert (h + [c])[i] in h;
      } else {
        assert (h + [c])[..|h|] == h;
      }
    }
  }

  /** The table's relation, then one row after the other. */
  function Filling(rows: seq<Tuple>): seq<Change> {
    if rows == [] then [Describe(1)] else Filling(rows[..|rows| - 1]) + [Add(1, rows[|rows| - 1])]
  }

  lemma {:induction false} NoRemovalIn(rows: seq<Tuple>)
    ensures forall c | c in Filling(rows) :: !c.Remove?
    decreases |rows|
  {
    if rows != [] {
      NoRemovalIn(rows[..|rows| - 1]);
    }
  }

  lemma {:induction false} Filled(r: Relation, rows: seq<Tuple>)
    requires forall row | row in rows :: IsRow(r, row)
    ensures var schema: Schema := map[1 := r];
            && Valid(schema, Filling(rows)) && Rows(SourceAfter(Filling(rows)), 1) == rows
            && 1 in SourceAfter(Filling(rows)).described
    decreases |rows|
  {
    var schema: Schema := map[1 := r];
    hide IsRow;
    if rows == [] {
      OneMore(schema, [], Describe(1));
      assert [] + [Describe(1)] == [Describe(1)];
    } else {
      var front, row := rows[..|rows| - 1], rows[|rows| - 1];
      assert rows == front + [row] && row in rows;
      Filled(r, front);
      OneMore(schema, Filling(front), Add(1, row));
    }
  }

  lemma OneText(text: Text32)
    ensures IsRow(TABLE, [Text(text)]) && KeyText(TABLE, [Text(text)]) == text
  {
    TableIsPlain();
    hide PlainRelation, GoodSchema;
  }

  /** One row, and an UPDATE that changes it: the replica keeps the old row. */
  lemma UpdateIsLost(server: Replica.Server)
    ensures var h := Filling([[Text("a")]]) + [Replace(1, 0, [Text("b")], NoOld, [Text("b")])];
            Valid(map[1 := TABLE], h) && !Converges(server, map[1 := TABLE], h)
  {
    hide RenderRow, IsRow, KeyText, Filling, PlainRelation;
    TableIsPlain();
    OneText("a");
    OneText("b");
    Filled(TABLE, [[Text("a")]]);
    RenderedApart();
    NoRemovalIn([[Text("a")]]);
    UnfaithfulEnd(server, map[1 := TABLE], Filling([[Text("a")]]), Replace(1, 0, [Text("b")], NoOld, [Text("b")]));
  }

  /** One row whose key is a single quote, and its removal: the replica keeps the row. */
  lemma QuotedRemovalIsLost(server: Replica.Server)
    ensures var h := Filling([[Text("'")]]) + [Remove(1, 0, true)];
            Valid(map[1 := TABLE], h) && !Converges(server, map[1 := TABLE], h)
  {
    hide RenderRow, IsRow, KeyText, Filling, PlainRelation, SomeRowHas;
    TableIsPlain();
    OneText("'");
    Filled(TABLE, [[Text("'")]]);
    NoRemovalIn([[Text("'")]]);
    UnfaithfulEnd(server, map[1 := TABLE], Filling([[Text("'")]]), Remove(1, 0, true));
  }

  /** Two rows with one key text, NULL and the text `NULL`: removing one removes both. */
  lemma SharedKeyRemovesBoth(server: Replica.Server)
    ensures var h := Filling([[Null], [Text("NULL")]]) + [Remove(1, 0, true)];
            Valid(map[1 := TABLE], h) && !Converges(server, map[1 := TABLE], h)
  {
    hide RenderRow, Filling, PlainRelation;
    TableIsPlain();
    var rows: seq<Tuple> := [[Null], [Text("NULL")]];
    assert forall row | row in rows :: IsRow(TABLE, row);
    Filled(TABLE, rows);
    assert Dropped(rows, 0) == [[Text("NULL")]];
    assert KeyText(TABLE, Dropped(rows, 0)[0]) == "NULL" == KeyText(TABLE, rows[0]);
    assert SomeRowHas(TABLE, Dropped(rows, 0), KeyText(TABLE, rows[0]));
    StruckByItself("NULL");
    StruckStaysInside("NULL");
    hide IsRow, KeyText, SomeRowHas;
    NoRemovalIn(rows);
    UnfaithfulEnd(server, map[1 := TABLE], Filling(rows), Remove(1, 0, true));
  }

  lemma RenderedApart()
    ensures RenderRow(TABLE, [Text("a")]) != RenderRow(TABLE, [Text("b")])
  {
    TableIsPlain();
    var a, b := RenderTuple([Text("a")]), RenderTuple([Text("b")]);
    RowMembers(TABLE, a);
    RowMembers(TABLE, b);
    assert TABLE.columns[0] in TABLE.columns;
    assert RenderRow(TABLE, [Text("a")])["k"] != RenderRow(TABLE, [Text("b")])["k"];
  }

  /** The same table under a name the server reserves. */
  const ORDER := TABLE.(name := "order")

  /** The failing input: one row of a table called `order`. */
  lemma ReservedTableIsLost(server: Replica.Server)
    ensures var h := Filling([[Text("a")]]);
            Valid(map[1 := ORDER], h) && ReplicaAfter(server, map[1 := ORDER], h) == map[]
                && !Converges(server, map[1 := ORDER], h)
  {
    var schema: Schema := map[1 := ORDER];
    var row := [Text("a")];
    assert IsRow(ORDER, row);
    OrderIsNoTable();
    hide Sql.IsIdentifier, IsRow, Filling, Consumed;
    Filled(ORDER, [row]);
    UnnamedNeverArrives(server, schema, Filling([row]));
    RowsAreMissed(server, schema, Filling([row]), 1);
  }

  /** The same table under the name of a view of the catalogue. */
  const COLUMNS := TABLE.(name := "columns")

  lemma ColumnsIsListed()
    ensures Identifiers.IsCatalogued("columns") && !Identifiers.IsKeyWord("columns")
  {
    assert "columns" in Identifiers.CatalogueNames(4);
    hide Identifiers.CatalogueNames, Identifiers.KeyWords;
    forall line: nat
      ensures "columns" !in Identifiers.KeyWords(line)
    {
      ColumnsDiffers(line);
    }
  }

  lemma ColumnsIsIdentifier()
    ensures Sql.IsIdentifier("columns")
  {
    ColumnsIsListed();
    hide Identifiers.IsCatalogued, Identifiers.IsKeyWord;
    assert Identifiers.Folded("columns") == "columns";
  }

  lemma ColumnsIsCatalogued()
    ensures WellNamed(COLUMNS) && Identifiers.IsCatalogued(COLUMNS.name)
  {
    ColumnsIsListed();
    ColumnsIsIdentifier();
    hide Identifiers.IsCatalogued, Sql.IsIdentifier;
    assert COLUMNS.columns == [Column(1 as char, "k", 25, -1)];
  }

  /** The failing input: one row of a table called `columns`. */
  lemma CataloguedTableIsLost(server: Replica.Server)
    ensures var h := Filling([[Text("a")]]);
            Valid(map[1 := COLUMNS], h) && ReplicaAfter(server, map[1 := COLUMNS], h) == map[]
                && !Converges(server, map[1 := COLUMNS], h)
  {
    var schema: Schema := map[1 := COLUMNS];
    var row := [Text("a")];
    assert IsRow(COLUMNS, row);
    ColumnsIsCatalogued();
    hide WellNamed, IsRow, Consumed;
    Filled(COLUMNS, [row]);
    NoRemovalIn([row]);
    hide Filling;
    CataloguedNeverArrives(server, schema, Filling([row]));
    RowsAreMissed(server, schema, Filling([row]), 1);
  }

  /** The failing input: keys `'` and `''` of one table are routed apart, yet deleting the second deletes the first. */
  lemma QuotedKeyBreaksOrder(server: Replica.Server)
    ensures var insert, delete := InsertChange(TABLE, ["'"]), DeleteChange(TABLE, ["''"]);
            insert.key != delete.key
                && Consumed(server, map[], [insert, delete]) != Consumed(server, map[], [delete, insert])
  {
    var schema: Schema := map[1 := TABLE];
    TableIsPlain();
    var a, b := RowChange(Added, 1, ["'"]), RowChange(Removed, 1, ["''"]);
    OneQuoteDoubled();
    assert KeyValue(schema, a) == "'" && KeyValue(schema, b) == "''";
    assert Crosses(schema, a, b);
    assert RecordOf(schema, a) == InsertChange(TABLE, ["'"]) && RecordOf(schema, b) == DeleteChange(TABLE, ["''"]) by {
      hide InsertChange, DeleteChange;
    }
    hide *;
    RoutedAlike(schema, a, b);
    CrossedOrders(server, schema, a, b);
  }

  /**
    The failing input: a removed key `x' OR 'a'='a`. To a server that runs the text as it stands, its
    DELETE is one of every row, so its order against the insertion of another key matters.
   */
  lemma BrokenKeyBreaksOrder()
    ensures var insert, delete := InsertChange(TABLE, ["y"]), DeleteChange(TABLE, ["x' OR 'a'='a"]);
            && insert.key != delete.key && Struck("x' OR 'a'='a").None?
            && Consumed(EMPTYING, map[], [insert, delete]) != Consumed(EMPTYING, map[], [delete, insert])
  {
    var key := "x' OR 'a'='a";
    assert BreaksOut(key, "x", " OR 'a'='a") && key != "y" by {
      assert Sql.Doubled('\'', "x") == "x";
      assert key[0] != "y"[0];
    }
    hide *;
    BrokenDoesNotStrike(key, "x", " OR 'a'='a");
    BrokenInTable("y", key, "x", " OR 'a'='a");
  }

  lemma BrokenInTable(inserted: bytes, removed: bytes, text: string, rest: string)
    requires inserted != removed && BreaksOut(removed, text, rest) && rest[0] != ','
    ensures var insert, delete := InsertChange(TABLE, [inserted]), DeleteChange(TABLE, [removed]);
            && insert.key != delete.key
            && Consumed(EMPTYING, map[], [insert, delete]) != Consumed(EMPTYING, map[], [delete, insert])
  {
    var schema: Schema := map[1 := TABLE];
    var a, b := RowChange(Added, 1, [inserted]), RowChange(Removed, 1, [removed]);
    TableIsPlain();
    assert KeyValue(schema, a) == inserted && KeyValue(schema, b) == removed;
    assert RecordOf(schema, a) == InsertChange(TABLE, [inserted])
        && RecordOf(schema, b) == DeleteChange(TABLE, [removed]) by {
      hide InsertChange, DeleteChange;
    }
    hide *;
    RoutedAlike(schema, a, b);
    BrokenKeyMayBreakOrder(schema, a, b, text, rest);
  }

  lemma OneQuoteDoubled()
    ensures Sql.Doubled('\'', "'") == "''"
  {
    assert "'"[1..] == "";
  }
}
