/** Worked examples: the catalog operations on small, fixed inputs. */
module Scenarios {
  import opened Results
  import opened Text
  import opened Entries
  import opened Library

  const Dune: Entry := NewEntry("Dune", "Herbert", "1965", Plain)

  /** Adding "Dune" and then "DUNE" keeps only the first: one entry. */
  lemma DuplicateTitleRejected()
    ensures Add(Add([], Dune), NewEntry("DUNE", "Someone", "2000", Plain)) == [Dune]
  {
    var c := Add([], Dune);
    assert c == [Dune];
    assert Lower("DUNE") == Lower("Dune");
    assert TitleMatches(c[0], "DUNE");
  }

  /** A digital entry survives being written out and read back. */
  lemma DigitalEntrySurvivesSaveAndLoad()
    ensures Decode(Encode(NewEntry("1984", "Orwell", "1949", Digital("ePub"))))
            == Ok(Entry("1984", "Orwell", "1949", "Disponible", Digital("ePub")))
  {
    DecodeEncode(NewEntry("1984", "Orwell", "1949", Digital("ePub")));
  }

  /** Lending "Dune" twice: the second attempt fails with AlreadyLoaned. */
  lemma SecondLoanFails()
    ensures MarkLoaned([Dune], "dune").Ok?
    ensures MarkLoaned(MarkLoaned([Dune], "dune").value, "dune") == Err(AlreadyLoaned)
  {
    assert Lower("dune") == Lower("Dune");
    MarkLoanedTwice([Dune], "dune", 0);
  }

  /** Removing a title that is not there fails with NotFound. */
  lemma RemoveMissingTitle()
    ensures Remove([Dune], "Nonexistent") == Err(NotFound)
  {
    assert Lower("Nonexistent")[0] == 'n';
    assert Lower("Dune")[0] == 'd';
    assert !TitleMatches(Dune, "Nonexistent");
  }
}
