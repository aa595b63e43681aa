/** Properties of the catalogue that relate its operations to each other. */
module Properties {
  import opened Wrappers
  import opened JsText
  import opened ArrayOps
  import opened Books
  import opened Handler

  /** A list result summarises exactly the records the chosen filter admits, each once, in
      store order. */
  lemma ListSelects(books: seq<Book>, q: Query)
    ensures var f := AdmittedBy(ChosenFilter(q));
            Positions(PositionsOf(books, f), books, f) &&
            PicksAt(ListBooks(books, q), Project(books), PositionsOf(books, f))
  {
    var f := ChosenFilter(q);
    var idx := PositionsOf(books, AdmittedBy(f));
    var kept := Keep(books, AdmittedBy(f));
    if f.Unfiltered? {
      KeepAll(books, AdmittedBy(f));
    }
    KeepSelects(books, AdmittedBy(f));
    assert ListBooks(books, q) == Project(kept);
    forall k | 0 <= k < |idx| ensures Project(kept)[k] == Project(books)[idx[k]] {
      assert kept[k] == books[idx[k]];
    }
  }

  /** Without a filter every record is listed, in store order. */
  lemma ListUnfilteredIsAll(books: seq<Book>, q: Query)
    requires !NamesBooks(q) && q.reading.None? && q.finished.None?
    ensures |ListBooks(books, q)| == |books|
    ensures forall k :: 0 <= k < |books| ==> ListBooks(books, q)[k] == Summarize(books[k])
  {
  }

  /** The reading and finished filters compare the flag, read as 0 or 1, with the query's number. */
  lemma FlagFilterMeaning(f: Filter, b: Book)
    requires f.ByReading? || f.ByFinished?
    ensures var flag := if f.ByReading? then b.reading else b.finished;
            Admits(f, b) <==> (f.wanted == Finite(1.0) && flag) || (f.wanted == Finite(0.0) && !flag)
  {
  }

  /** A reading or finished query whose number is neither 0 nor 1 lists nothing. */
  lemma NonFlagQueryListsNothing(books: seq<Book>, q: Query)
    requires ChosenFilter(q).ByReading? || ChosenFilter(q).ByFinished?
    requires ChosenFilter(q).wanted != Finite(0.0) && ChosenFilter(q).wanted != Finite(1.0)
    ensures ListBooks(books, q) == []
  {
    KeepNone(books, AdmittedBy(ChosenFilter(q)));
  }

  /** A name query admits every book whose name contains the query verbatim. */
  lemma NameFilterFindsLiteral(q: Query, b: Book)
    requires NamesBooks(q) && Contains(b.name, q.name.value)
    ensures Admits(ChosenFilter(q), b)
  {
    ContainsLowered(b.name, q.name.value);
  }

  /** The name filter admits a book exactly when the pattern occurs in its name, ignoring ASCII
      case. */
  lemma NameFilterMeaning(pattern: string, b: Book)
    ensures Admits(ByName(pattern), b) <==> exists i :: CaselessAt(b.name, pattern, i)
  {
    forall i ensures OccursAt(Lower(b.name), Lower(pattern), i) <==> CaselessAt(b.name, pattern, i) {
      LoweredOccursIffCaseless(b.name, pattern, i);
    }
  }

  /** The name query "the" admits "The Hobbit" and "Into the Wild" but not "Dune". */
  lemma NameFilterExample(hobbit: Book, wild: Book, dune: Book)
    requires hobbit.name == "The Hobbit" && wild.name == "Into the Wild" && dune.name == "Dune"
    ensures Admits(ByName("the"), hobbit) && Admits(ByName("the"), wild)
    ensures !Admits(ByName("the"), dune)
  {
    TheAdmitsHobbit(hobbit);
    TheAdmitsWild(wild);
    TheRejectsDune(dune);
  }

  /** "the" occurs at the start of "The Hobbit", ignoring case. */
  lemma TheAdmitsHobbit(hobbit: Book)
    requires hobbit.name == "The Hobbit"
    ensures Admits(ByName("the"), hobbit)
  {
    assert Lower("the") == "the";
    assert Lower("The Hobbit")[0..3] == "the";
    assert OccursAt(Lower("The Hobbit"), "the", 0);
  }

  /** "the" occurs at position 5 of "Into the Wild". */
  lemma TheAdmitsWild(wild: Book)
    requires wild.name == "Into the Wild"
    ensures Admits(ByName("the"), wild)
  {
    assert Lower("the") == "the";
    assert Lower("Into the Wild")[5..8] == "the";
    assert OccursAt(Lower("Into the Wild"), "the", 5);
  }

  /** "the" occurs nowhere in "Dune". */
  lemma TheRejectsDune(dune: Book)
    requires dune.name == "Dune"
    ensures !Admits(ByName("the"), dune)
  {
    assert Lower("the") == "the";
    assert Lower("Dune") == "dune";
    assert "dune"[0..3][0] != 't' && "dune"[1..4][0] != 't';
    assert !OccursAt("dune", "the", 0) && !OccursAt("dune", "the", 1);
  }

  /** A book just added with a fresh id is what get returns for that id. */
  lemma AddThenGet(books: seq<Book>, p: Payload, id: string, now: string)
    requires Validate(p).None? && Unused(books, id)
    ensures GetBook(books + [NewBook(p, id, now)], id) == Success(NewBook(p, id, now))
  {
    var after := books + [NewBook(p, id, now)];
    assert HasId(id)(after[|books|]);
    assert forall j :: 0 <= j < |books| ==> after[j] == books[j];
  }

  /** Adding a book with a fresh id keeps ids unique. */
  lemma AddKeepsIdsUnique(books: seq<Book>, p: Payload, id: string, now: string)
    requires p.name.Some? && UniqueIds(books) && Unused(books, id)
    ensures UniqueIds(books + [NewBook(p, id, now)])
  {
  }

  /** After a successful update, get returns the revised record. */
  lemma UpdateThenGet(books: seq<Book>, id: string, p: Payload, now: string)
    requires FindIndex(books, HasId(id)) != -1 && Validate(p).None?
    ensures var i := FindIndex(books, HasId(id));
            GetBook(books[i := Revised(books[i], p, now)], id) == Success(Revised(books[i], p, now))
  {
    var i := FindIndex(books, HasId(id));
    var after := books[i := Revised(books[i], p, now)];
    assert HasId(id)(after[i]);
    assert forall j :: 0 <= j < i ==> after[j] == books[j];
  }

  /** Updating keeps ids unique, since the id is carried over. */
  lemma UpdateKeepsIdsUnique(books: seq<Book>, i: int, p: Payload, now: string)
    requires 0 <= i < |books| && p.name.Some? && UniqueIds(books)
    ensures UniqueIds(books[i := Revised(books[i], p, now)])
  {
  }

  /** Update keeps the old `finished` flag, so it can break the derived-flag rule that add
      establishes. */
  lemma UpdateCanBreakConsistency()
    ensures exists b: Book, p: Payload ::
              Consistent(b) && Validate(p).None? && !Consistent(Revised(b, p, b.updatedAt))
  {
    var b := Book("b", "A", 2020, "X", "s", "P", 100, 100, true, false, "t0", "t0");
    var p := Payload(Some("A"), 2020, "X", "s", "P", 100, 50, true);
    assert Consistent(b) && Validate(p).None? && !Consistent(Revised(b, p, b.updatedAt));
  }

  /** With unique ids, after a delete get no longer finds the id. */
  lemma DeleteThenGet(books: seq<Book>, id: string)
    requires UniqueIds(books) && FindIndex(books, HasId(id)) != -1
    ensures var i := FindIndex(books, HasId(id));
            GetBook(books[..i] + books[i + 1..], id) == Failure(NotFound)
  {
    var i := FindIndex(books, HasId(id));
    var rest := books[..i] + books[i + 1..];
    forall j | 0 <= j < |rest| ensures rest[j].id != id {
      if j < i {
        assert rest[j] == books[j];
      } else {
        assert rest[j] == books[j + 1];
      }
    }
  }

  /** Deleting keeps ids unique. */
  lemma DeleteKeepsIdsUnique(books: seq<Book>, i: int)
    requires 0 <= i < |books| && UniqueIds(books)
    ensures UniqueIds(books[..i] + books[i + 1..])
  {
    var rest := books[..i] + books[i + 1..];
    forall j, k | 0 <= j < k < |rest| ensures rest[j].id != rest[k].id {
      var j' := if j < i then j else j + 1;
      var k' := if k < i then k else k + 1;
      assert rest[j] == books[j'] && rest[k] == books[k'];
    }
  }
}
