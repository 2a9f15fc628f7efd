/** The catalog store (`Biblioteca`) as a pure state machine over an ordered
    sequence of entries. Each operation takes the catalog and returns the
    new one, or the error the program raises. */
module Library {
  import opened Results
  import opened Text
  import opened Seqs
  import opened Entries

  /** The in-memory list of books, in insertion (or load) order. */
  type Catalog = seq<Entry>

  // ---------------------------------------------------------------------
  // Matching

  /** Exact match: the lower-cased title equals the lower-cased query. */
  predicate TitleMatches(e: Entry, query: string) {
    Lower(e.title) == Lower(query)
  }

  /** Some entry of `c` matches `query` exactly. */
  predicate HasMatch(c: Catalog, query: string) {
    exists i :: 0 <= i < |c| && TitleMatches(c[i], query)
  }

  /** Position `i` holds the first exact match of `query` in catalog order. */
  ghost predicate IsFirstMatch(c: Catalog, query: string, i: int) {
    0 <= i < |c| && TitleMatches(c[i], query) &&
    forall j :: 0 <= j < i ==> !TitleMatches(c[j], query)
  }

  /** No two entries have titles that are equal up to case. */
  predicate TitlesDistinct(c: Catalog) {
    forall i, j :: 0 <= i < j < |c| ==> Lower(c[i].title) != Lower(c[j].title)
  }

  /** The position of the first exact match, scanning from the front. */
  function FindIndex(c: Catalog, query: string): (r: Option<nat>)
    ensures r.None? <==> !HasMatch(c, query)
    ensures r.Some? ==> IsFirstMatch(c, query, r.value)
  {
    if c == [] then
      None
    else if TitleMatches(c[0], query) then
      Some(0)
    else
      match FindIndex(c[1..], query)
      case None =>
        assert forall i :: 1 <= i < |c| ==> c[i] == c[1..][i - 1];
        None
      case Some(i) =>
        assert c[i + 1] == c[1..][i];
        assert forall j :: 1 <= j < i + 1 ==> c[j] == c[1..][j - 1];
        Some(i + 1)
  }

  /** At most one position is the first match. */
  lemma FirstMatchUnique(c: Catalog, query: string, i: int, j: int)
    requires IsFirstMatch(c, query, i) && IsFirstMatch(c, query, j)
    ensures i == j
  {
  }

  // ---------------------------------------------------------------------
  // Searching (`buscar_libro`)

  /** Exact search: the first entry whose title matches, or none. */
  function SearchExact(c: Catalog, query: string): (r: Option<Entry>)
    ensures r.None? <==> !HasMatch(c, query)
    ensures r.Some? ==> r.value in c && TitleMatches(r.value, query)
    ensures r.Some? ==> exists i :: IsFirstMatch(c, query, i) && c[i] == r.value
  {
    match FindIndex(c, query)
    case None => None
    case Some(i) => Some(c[i])
  }

  /** Substring match: the lower-cased query occurs in the lower-cased title. */
  predicate TitleContains(e: Entry, query: string) {
    Contains(Lower(query), Lower(e.title))
  }

  /** Substring search: every entry whose title contains the query, in
      catalog order (order is stated by `SearchSubstringConcat`). */
  function SearchSubstring(c: Catalog, query: string): (r: seq<Entry>)
    ensures forall e :: e in r <==> e in c && IsSubstring(Lower(query), Lower(e.title))
    ensures forall e :: multiset(r)[e] ==
                        (if IsSubstring(Lower(query), Lower(e.title)) then multiset(c)[e] else 0)
  {
    FilterCount(c, e => TitleContains(e, query));
    Filter(c, e => TitleContains(e, query))
  }

  /** Substring search keeps catalog order: the hits in an earlier part of
      the catalog come before the hits in a later part. */
  lemma SearchSubstringConcat(a: Catalog, b: Catalog, query: string)
    ensures SearchSubstring(a + b, query) == SearchSubstring(a, query) + SearchSubstring(b, query)
  {
    FilterConcat(a, b, e => TitleContains(e, query));
  }

  /** An empty query matches every title, so it returns the whole catalog. */
  lemma SearchEmptyQuery(c: Catalog)
    ensures SearchSubstring(c, "") == c
  {
    forall i | 0 <= i < |c|
      ensures TitleContains(c[i], "")
    {
      EmptyContained(Lower(c[i].title));
    }
    FilterAll(c, e => TitleContains(e, ""));
  }

  /** An exact hit is also a substring hit. */
  lemma ExactHitIsSubstringHit(c: Catalog, query: string)
    requires SearchExact(c, query).Some?
    ensures SearchExact(c, query).value in SearchSubstring(c, query)
  {
    var e := SearchExact(c, query).value;
    assert OccursAt(Lower(query), Lower(e.title), 0);
  }

  // ---------------------------------------------------------------------
  // Listing (`listar_disponibles`)

  predicate IsAvailable(e: Entry) {
    e.state == Available
  }

  /** The comprehension of line 151: the entries whose state is exactly
      "Disponible", in catalog order (order is stated by
      `AvailableEntriesConcat`). */
  function AvailableEntries(c: Catalog): (r: seq<Entry>)
    ensures forall e :: e in r <==> e in c && e.state == Available
    ensures forall e :: multiset(r)[e] == (if e.state == Available then multiset(c)[e] else 0)
  {
    FilterCount(c, IsAvailable);
    Filter(c, IsAvailable)
  }

  /** The available entries keep catalog order: those of an earlier part of
      the catalog come before those of a later part. */
  lemma AvailableEntriesConcat(a: Catalog, b: Catalog)
    ensures AvailableEntries(a + b) == AvailableEntries(a) + AvailableEntries(b)
  {
    FilterConcat(a, b, IsAvailable);
  }

  /** `listar_disponibles`: the available entries, or none when there are
      no such entries. */
  function ListAvailable(c: Catalog): (r: Option<seq<Entry>>)
    ensures r.None? <==> forall i :: 0 <= i < |c| ==> c[i].state != Available
    ensures r.Some? ==> r.value == AvailableEntries(c) && r.value != []
    ensures r.Some? ==> forall e :: e in r.value <==> e in c && e.state == Available
  {
    var found := AvailableEntries(c);
    if found == [] then
      assert forall i :: 0 <= i < |c| ==> c[i] in c;
      None
    else
      assert found[0] in found;
      Some(found)
  }

  // ---------------------------------------------------------------------
  // Adding (`agregar_libro`)

  /** A duplicate title (up to case) is reported and leaves the catalog as
      it was; otherwise the entry is appended at the end. */
  function Add(c: Catalog, e: Entry): (r: Catalog)
    ensures HasMatch(c, e.title) ==> r == c
    ensures !HasMatch(c, e.title) ==>
      |r| == |c| + 1 && r[|c|] == e && forall i :: 0 <= i < |c| ==> r[i] == c[i]
    ensures TitlesDistinct(c) ==> TitlesDistinct(r)
  {
    if HasMatch(c, e.title) then c else c + [e]
  }

  /** Adding a sequence of entries one after another. */
  function AddAll(c: Catalog, es: seq<Entry>): Catalog
    decreases |es|
  {
    if es == [] then c else AddAll(Add(c, es[0]), es[1..])
  }

  /** Uniqueness: however many entries are added, starting from a catalog
      with distinct titles, titles stay distinct. */
  lemma {:induction false} AddAllKeepsDistinct(c: Catalog, es: seq<Entry>)
    requires TitlesDistinct(c)
    ensures TitlesDistinct(AddAll(c, es))
    decreases |es|
  {
    if es != [] {
      AddAllKeepsDistinct(Add(c, es[0]), es[1..]);
    }
  }

  /** Adding never shrinks the catalog and grows it by at most one entry per add. */
  lemma {:induction false} AddAllSize(c: Catalog, es: seq<Entry>)
    ensures |c| <= |AddAll(c, es)| <= |c| + |es|
    decreases |es|
  {
    if es != [] {
      AddAllSize(Add(c, es[0]), es[1..]);
    }
  }

  /** A freshly added entry is what exact search for its title finds. */
  lemma AddThenSearch(c: Catalog, e: Entry)
    requires !HasMatch(c, e.title)
    ensures SearchExact(Add(c, e), e.title) == Some(e)
  {
    var r := Add(c, e);
    assert TitleMatches(r[|c|], e.title);
    assert IsFirstMatch(r, e.title, |c|);
    var i :| IsFirstMatch(r, e.title, i) && r[i] == SearchExact(r, e.title).value;
    FirstMatchUnique(r, e.title, i, |c|);
  }

  // ---------------------------------------------------------------------
  // Removing (`eliminar_libro`)

  /** `r` is `c` with position `i` deleted and the rest in the same order. */
  ghost predicate RemovedAt(c: Catalog, r: Catalog, i: int) {
    0 <= i < |c| && |r| == |c| - 1 &&
    (forall j :: 0 <= j < i ==> r[j] == c[j]) &&
    (forall j :: i <= j < |r| ==> r[j] == c[j + 1])
  }

  /** Lower-casing the query before an exact search finds the same position. */
  lemma LoweredQuerySameIndex(c: Catalog, query: string)
    ensures FindIndex(c, Lower(query)) == FindIndex(c, query)
  {
    LowerIdempotent(query);
    if FindIndex(c, query).Some? {
      FirstMatchUnique(c, query, FindIndex(c, query).value, FindIndex(c, Lower(query)).value);
    }
  }

  /** The title is lower-cased, then the first exact match is deleted;
      with no match the program raises (NotFound). */
  function Remove(c: Catalog, title: string): (r: Result<Catalog, Error>)
    ensures r.Err? <==> !HasMatch(c, title)
    ensures r.Err? ==> r.error == NotFound
    ensures r.Ok? ==> exists i :: IsFirstMatch(c, title, i) && RemovedAt(c, r.value, i)
  {
    var lowered := Lower(title);
    LoweredQuerySameIndex(c, title);
    match FindIndex(c, lowered)
    case None => Err(NotFound)
    case Some(i) =>
      var r := c[..i] + c[i + 1..];
      assert RemovedAt(c, r, i);
      Ok(r)
  }

  /** Removing keeps the remaining titles distinct, and with distinct titles
      the removed title is gone afterwards. */
  lemma RemoveKeepsDistinct(c: Catalog, title: string)
    requires TitlesDistinct(c)
    requires Remove(c, title).Ok?
    ensures TitlesDistinct(Remove(c, title).value)
    ensures !HasMatch(Remove(c, title).value, title)
  {
    var r := Remove(c, title).value;
    var i :| IsFirstMatch(c, title, i) && RemovedAt(c, r, i);
    forall a, b | 0 <= a < b < |r|
      ensures Lower(r[a].title) != Lower(r[b].title)
    {
      var a' := if a < i then a else a + 1;
      var b' := if b < i then b else b + 1;
      assert r[a] == c[a'] && r[b] == c[b'];
    }
    forall j | 0 <= j < |r|
      ensures !TitleMatches(r[j], title)
    {
      var j' := if j < i then j else j + 1;
      assert r[j] == c[j'];
    }
  }

  /** Adding a new title and removing it again restores the catalog. */
  lemma AddThenRemove(c: Catalog, e: Entry)
    requires !HasMatch(c, e.title)
    ensures Remove(Add(c, e), e.title) == Ok(c)
  {
    var a := Add(c, e);
    assert TitleMatches(a[|c|], e.title);
    var r := Remove(a, e.title).value;
    var i :| IsFirstMatch(a, e.title, i) && RemovedAt(a, r, i);
    assert i == |c|;
    assert r == c;
  }

  // ---------------------------------------------------------------------
  // Loan state machine (`marcar_prestado`, `devolver_libro`)

  /** `r` is `c` with only the state of position `i` set to `s`. */
  ghost predicate UpdatedAt(c: Catalog, r: Catalog, i: int, s: string) {
    0 <= i < |c| && |r| == |c| &&
    r[i].state == s && SameExceptState(r[i], c[i]) &&
    forall j :: 0 <= j < |c| && j != i ==> r[j] == c[j]
  }

  /** Lending: no match is NotFound, a match already "Prestado" is
      AlreadyLoaned, otherwise only that entry's state becomes "Prestado". */
  function MarkLoaned(c: Catalog, title: string): (r: Result<Catalog, Error>)
    ensures r.Err? ==> r.error == NotFound || r.error == AlreadyLoaned
    ensures r == Err(NotFound) <==> !HasMatch(c, title)
    ensures r == Err(AlreadyLoaned) <==>
      exists i :: IsFirstMatch(c, title, i) && c[i].state == Loaned
    ensures r.Ok? ==>
      exists i :: IsFirstMatch(c, title, i) && c[i].state != Loaned && UpdatedAt(c, r.value, i, Loaned)
  {
    match FindIndex(c, title)
    case None => Err(NotFound)
    case Some(i) =>
      if c[i].state == Loaned then
        Err(AlreadyLoaned)
      else
        match SetState(c[i], Loaned)
        case Ok(e) => Ok(c[i := e])
        case Err(err) => Err(err)
  }

  /** Returning: no match is NotFound; a match already "Disponible" leaves
      the catalog as it was; any other state (including an unvalidated one
      read from the file) becomes "Disponible" for that entry only. */
  function Return(c: Catalog, title: string): (r: Result<Catalog, Error>)
    ensures r.Err? <==> !HasMatch(c, title)
    ensures r.Err? ==> r.error == NotFound
    ensures r.Ok? ==> exists i :: IsFirstMatch(c, title, i) &&
                                  (if c[i].state == Available then r.value == c
                                   else UpdatedAt(c, r.value, i, Available))
  {
    match FindIndex(c, title)
    case None => Err(NotFound)
    case Some(i) =>
      if c[i].state == Available then
        Ok(c)
      else
        match SetState(c[i], Available)
        case Ok(e) => Ok(c[i := e])
        case Err(err) => Err(err)
  }

  /** Changing states leaves every title where it was, so exact search
      finds the same position. */
  lemma {:induction false} SameTitlesSameIndex(c: Catalog, d: Catalog, query: string)
    requires |c| == |d|
    requires forall i :: 0 <= i < |c| ==> c[i].title == d[i].title
    ensures FindIndex(d, query) == FindIndex(c, query)
    decreases |c|
  {
    if c != [] {
      SameTitlesSameIndex(c[1..], d[1..], query);
    }
  }

  /** Lending a second time fails with AlreadyLoaned. */
  lemma MarkLoanedTwice(c: Catalog, title: string, i: int)
    requires IsFirstMatch(c, title, i) && c[i].state != Loaned
    ensures MarkLoaned(c, title).Ok?
    ensures MarkLoaned(MarkLoaned(c, title).value, title) == Err(AlreadyLoaned)
  {
    FirstMatchUnique(c, title, i, FindIndex(c, title).value);
    var r := MarkLoaned(c, title).value;
    SameTitlesSameIndex(c, r, title);
  }

  /** Lending an available entry and returning it restores the catalog. */
  lemma MarkLoanedThenReturn(c: Catalog, title: string, i: int)
    requires IsFirstMatch(c, title, i) && c[i].state == Available
    ensures MarkLoaned(c, title).Ok?
    ensures Return(MarkLoaned(c, title).value, title) == Ok(c)
  {
    FirstMatchUnique(c, title, i, FindIndex(c, title).value);
    var r := MarkLoaned(c, title).value;
    SameTitlesSameIndex(c, r, title);
    assert r[i := c[i]] == c;
  }

  /** Returning a lent entry and lending it again restores the catalog. */
  lemma ReturnThenMarkLoaned(c: Catalog, title: string, i: int)
    requires IsFirstMatch(c, title, i) && c[i].state == Loaned
    ensures Return(c, title).Ok?
    ensures MarkLoaned(Return(c, title).value, title) == Ok(c)
  {
    FirstMatchUnique(c, title, i, FindIndex(c, title).value);
    var r := Return(c, title).value;
    SameTitlesSameIndex(c, r, title);
    assert r[i := c[i]] == c;
  }

  /** Returning twice is the same as returning once. */
  lemma ReturnIdempotent(c: Catalog, title: string)
    requires HasMatch(c, title)
    ensures Return(c, title).Ok?
    ensures Return(Return(c, title).value, title) == Return(c, title)
  {
    var r := Return(c, title).value;
    var i :| IsFirstMatch(c, title, i) &&
             (if c[i].state == Available then r == c else UpdatedAt(c, r, i, Available));
    SameTitlesSameIndex(c, r, title);
    FirstMatchUnique(c, title, i, FindIndex(c, title).value);
  }

  /** Lending an available entry takes exactly one entry off the list of
      available entries. */
  lemma MarkLoanedShrinksAvailable(c: Catalog, title: string, i: int)
    requires IsFirstMatch(c, title, i) && c[i].state == Available
    ensures MarkLoaned(c, title).Ok?
    ensures |AvailableEntries(MarkLoaned(c, title).value)| + 1 == |AvailableEntries(c)|
  {
    FirstMatchUnique(c, title, i, FindIndex(c, title).value);
    var r := MarkLoaned(c, title).value;
    assert r == c[i := r[i]];
    FilterUpdateDrop(c, i, r[i], IsAvailable);
  }

  /** Lending and returning keep titles distinct. */
  lemma StateChangesKeepDistinct(c: Catalog, title: string)
    requires TitlesDistinct(c)
    ensures MarkLoaned(c, title).Ok? ==> TitlesDistinct(MarkLoaned(c, title).value)
    ensures Return(c, title).Ok? ==> TitlesDistinct(Return(c, title).value)
  {
  }
}
