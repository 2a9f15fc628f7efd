# Library catalog manager — Dafny model

This project models the catalog logic of `gestor_biblioteca.py`, a small
personal library manager. A book (`Libro`) or a digital book
(`LibroDigital`, which adds a format) is held in an ordered list owned by the
store (`Biblioteca`). The store adds books, rejecting titles that are already
present up to case. It removes and searches by title, lists the books whose
state is "Disponible", and moves a book between "Disponible" and "Prestado".
Each book is written to and read from a line of the backing file as a
key/value record.

The model is functional:

- `Entries.Entry` is one tagged datatype. Its `kind` is `Plain` or
  `Digital(format)`. Its state is a raw string, because neither the
  constructor nor the loader checks it; only the `estado` setter does
  (`Entries.SetState`).
- `Entries.Encode` and `Entries.Decode` are `to_dict` and the per-record
  branch of `_cargar_libros`. A record is a `map<string, string>`. A missing
  key is the `KeyError` the constructor call would raise.
- `Library.Catalog` is `seq<Entry>`. Each store operation is a pure function
  from the catalog to a new catalog. Operations that raise in the program
  return `Result<Catalog, Error>` with `NotFound` (`IndexError`),
  `AlreadyLoaned` (the `ValueError` of a second loan) or `InvalidState`
  (the setter's `ValueError`).
- `Text.Lower` is ASCII lower-casing, standing in for `str.lower`.
  `Text.Contains` is Python's `needle in hay`. It is proved equal to a
  reference definition, `Text.IsSubstring`, which says some window of the
  haystack spells the needle.

`buscar_libro` returns a single book or a list depending on its `exacto`
flag, so it is modelled as two functions: `Library.SearchExact` and
`Library.SearchSubstring`.

Loading does not enforce unique titles, so exact search, removal, lending and
returning all act on the *first* match in catalog order (`Library.FindIndex`).
`list.remove` removes the first element identical to the found object. That
object is the first match, so removal deletes that position.

The model uses the program's own keys, tags and states, and its own return conventions:

- Keys and tags are the code's Spanish ones: "tipo", "titulo", "autor",
  "anio_publicacion", "estado", "formato", "Libro"/"LibroDigital".
- The states are "Disponible"/"Prestado".
- Any tag other than "LibroDigital", or no tag at all, decodes as a plain
  book.
- A duplicate add is only printed, so `Library.Add` returns the catalog
  unchanged and no error.
- `listar_disponibles` returns `None` (not an empty list) when nothing is
  available, so `Library.ListAvailable` returns an `Option`.

## Model

| member | source | states |
|---|---|---|
| Text.LowerChar | Gestion_biblioteca_poo_m4/gestor_biblioteca.py:143 | lower-casing a character leaves no upper-case letter; non-letters are unchanged; 'A'..'Z' shift to 'a'..'z' |
| Text.Lower | Gestion_biblioteca_poo_m4/gestor_biblioteca.py:143 | the lower-cased title has the same length and is lower-cased position by position |
| Text.LowerIdempotent | Gestion_biblioteca_poo_m4/gestor_biblioteca.py:133-134 | lower-casing twice equals lower-casing once, which makes the extra `lower()` in removal harmless |
| Text.Contains | Gestion_biblioteca_poo_m4/gestor_biblioteca.py:148 | the scan answers true exactly when some window of the title spells the query (both directions) |
| Text.ShiftWindow | Gestion_biblioteca_poo_m4/gestor_biblioteca.py:148 | when the first window misses, the needle occurs in the haystack exactly when it occurs in the haystack without its first character |
| Text.EmptyContained | Gestion_biblioteca_poo_m4/gestor_biblioteca.py:148 | the empty query is contained in every title |
| Seqs.Filter | Gestion_biblioteca_poo_m4/gestor_biblioteca.py:148 | a list comprehension keeps exactly the qualifying elements and is no longer than its input |
| Seqs.FilterCount | Gestion_biblioteca_poo_m4/gestor_biblioteca.py:148 | each qualifying element is kept as often as it occurs in the input; the others do not occur |
| Seqs.FilterConcat | Gestion_biblioteca_poo_m4/gestor_biblioteca.py:148 | selection distributes over concatenation, so the results keep the input's order |
| Seqs.FilterUpdateDrop | Gestion_biblioteca_poo_m4/gestor_biblioteca.py:151 | replacing one qualifying element by a non-qualifying one shortens the selection by exactly one |
| Seqs.FilterAll | Gestion_biblioteca_poo_m4/gestor_biblioteca.py:148 | when every element qualifies, the result is the whole input |
| Entries.NewEntry | Gestion_biblioteca_poo_m4/gestor_biblioteca.py:7-11 | a new entry (plain, or digital as at line 54) carries the given title, author, year and variant, and its state defaults to "Disponible" |
| Entries.SetState | Gestion_biblioteca_poo_m4/gestor_biblioteca.py:33-38 | the setter succeeds exactly for "Disponible" or "Prestado" and then changes only the state; any other value is InvalidState |
| Entries.Encode | Gestion_biblioteca_poo_m4/gestor_biblioteca.py:40-74 | the record holds every field under its key, tag "Libro" for plain and "LibroDigital" for digital, and "formato" only for digital |
| Entries.FirstMissing | Gestion_biblioteca_poo_m4/gestor_biblioteca.py:94-108 | reports the first key, in argument order, that the record lacks, or nothing when all are present |
| Entries.Decode | Gestion_biblioteca_poo_m4/gestor_biblioteca.py:94-108 | decoding succeeds exactly when every key the chosen constructor reads is present; the variant is digital exactly when "tipo" is "LibroDigital"; the fields are copied and the state is not checked |
| Entries.DecodeEncode | Gestion_biblioteca_poo_m4/gestor_biblioteca.py:94-108 | decoding the record of any entry gives the same entry back, variant and format included |
| Entries.EncodeDecode | Gestion_biblioteca_poo_m4/gestor_biblioteca.py:94-108 | re-encoding a decoded record reproduces every key the decoder read; the tag becomes "Libro" unless it was "LibroDigital"; "formato" appears exactly for digital |
| Library.FindIndex | Gestion_biblioteca_poo_m4/gestor_biblioteca.py:146 | returns the first position whose title equals the query up to case, or none exactly when no title matches |
| Library.FirstMatchUnique | Gestion_biblioteca_poo_m4/gestor_biblioteca.py:146 | the first match is unique |
| Library.SearchExact | Gestion_biblioteca_poo_m4/gestor_biblioteca.py:142-146 | exact search returns the first matching entry, which is a member of the catalog, and returns none exactly when nothing matches |
| Library.SearchSubstring | Gestion_biblioteca_poo_m4/gestor_biblioteca.py:142-148 | substring search returns exactly the entries whose lower-cased title contains the lower-cased query, each as often as in the catalog |
| Library.SearchSubstringConcat | Gestion_biblioteca_poo_m4/gestor_biblioteca.py:148 | substring search keeps catalog order |
| Library.SearchEmptyQuery | Gestion_biblioteca_poo_m4/gestor_biblioteca.py:148 | the empty query returns the whole catalog |
| Library.ExactHitIsSubstringHit | Gestion_biblioteca_poo_m4/gestor_biblioteca.py:142-148 | an exact hit is also among the substring hits |
| Library.AvailableEntries | Gestion_biblioteca_poo_m4/gestor_biblioteca.py:151 | the selection holds exactly the "Disponible" entries, each as often as in the catalog |
| Library.AvailableEntriesConcat | Gestion_biblioteca_poo_m4/gestor_biblioteca.py:151 | the available entries keep catalog order: those of an earlier part come before those of a later part |
| Library.ListAvailable | Gestion_biblioteca_poo_m4/gestor_biblioteca.py:150-160 | the result is none exactly when no entry is "Disponible"; otherwise it is the non-empty, order-preserving selection of the "Disponible" entries |
| Library.Add | Gestion_biblioteca_poo_m4/gestor_biblioteca.py:125-130 | a title already present up to case leaves the catalog unchanged; otherwise the entry is appended and earlier entries are untouched; distinct titles stay distinct |
| Library.AddAllKeepsDistinct | Gestion_biblioteca_poo_m4/gestor_biblioteca.py:125-130 | any sequence of adds keeps titles pairwise distinct up to case |
| Library.AddAllSize | Gestion_biblioteca_poo_m4/gestor_biblioteca.py:125-130 | each add grows the catalog by at most one entry and never shrinks it |
| Library.AddThenSearch | Gestion_biblioteca_poo_m4/gestor_biblioteca.py:125-146 | after a successful add, exact search for the title finds the new entry |
| Library.LoweredQuerySameIndex | Gestion_biblioteca_poo_m4/gestor_biblioteca.py:132-134 | searching for the lower-cased title finds the same position as searching for the title |
| Library.Remove | Gestion_biblioteca_poo_m4/gestor_biblioteca.py:132-139 | no match up to case is NotFound; otherwise exactly the first match is deleted, the length drops by one and the other entries keep their order |
| Library.RemoveKeepsDistinct | Gestion_biblioteca_poo_m4/gestor_biblioteca.py:132-139 | removal keeps titles distinct, and with distinct titles the removed title no longer matches |
| Library.AddThenRemove | Gestion_biblioteca_poo_m4/gestor_biblioteca.py:125-139 | adding a new title and then removing it restores the original catalog |
| Library.MarkLoaned | Gestion_biblioteca_poo_m4/gestor_biblioteca.py:162-171 | no match is NotFound; a first match in state "Prestado" is AlreadyLoaned; otherwise only that entry's state becomes "Prestado" and nothing else changes |
| Library.Return | Gestion_biblioteca_poo_m4/gestor_biblioteca.py:174-185 | no match is NotFound; a first match in state "Disponible" leaves the catalog unchanged; otherwise only that entry's state becomes "Disponible", whatever it was |
| Library.SameTitlesSameIndex | Gestion_biblioteca_poo_m4/gestor_biblioteca.py:163-175 | catalogs with the same titles position by position have the same first match |
| Library.MarkLoanedTwice | Gestion_biblioteca_poo_m4/gestor_biblioteca.py:162-171 | a second loan of the same title fails with AlreadyLoaned |
| Library.MarkLoanedThenReturn | Gestion_biblioteca_poo_m4/gestor_biblioteca.py:162-185 | lending an available entry and then returning it restores the catalog |
| Library.ReturnThenMarkLoaned | Gestion_biblioteca_poo_m4/gestor_biblioteca.py:162-185 | returning a lent entry and then lending it again restores the catalog |
| Library.ReturnIdempotent | Gestion_biblioteca_poo_m4/gestor_biblioteca.py:174-185 | a second return of the same title changes nothing more |
| Library.MarkLoanedShrinksAvailable | Gestion_biblioteca_poo_m4/gestor_biblioteca.py:150-171 | lending an available entry removes exactly one entry from the available list |
| Library.StateChangesKeepDistinct | Gestion_biblioteca_poo_m4/gestor_biblioteca.py:162-185 | lending and returning keep titles distinct |
| Scenarios.DuplicateTitleRejected | Gestion_biblioteca_poo_m4/gestor_biblioteca.py:125-130 | adding "Dune" and then "DUNE" leaves one entry |
| Scenarios.DigitalEntrySurvivesSaveAndLoad | Gestion_biblioteca_poo_m4/gestor_biblioteca.py:94-101 | a new digital entry read back is digital, format "ePub", state "Disponible" |
| Scenarios.SecondLoanFails | Gestion_biblioteca_poo_m4/gestor_biblioteca.py:162-171 | lending "Dune" twice fails the second time with AlreadyLoaned |
| Scenarios.RemoveMissingTitle | Gestion_biblioteca_poo_m4/gestor_biblioteca.py:132-137 | removing an absent title fails with NotFound |

## Left out

- File I/O in `_cargar_libros` and `guardar_libros` (lines 83-123) is not modelled: the existence test, opening, the line loop, blank-line skipping and the swallowed exceptions. Only the per-record encode and decode are modelled. As written, a failing record keeps the entries loaded before it.
- JSON text (`json.dumps`, `json.loads`) is not modelled; the model stops at the key/value record.
- Record values other than strings are not modelled. Field values are strings throughout, which is what the program itself writes, since every field comes from `input()`. Numbers or `null` in a hand-edited file are not covered.
- Console output is not modelled: every `print` and the `__str__` formatting (lines 49-50, 66-68).
- The interactive loop `mostrar_menu` and `main` (lines 188-268) is not modelled.
- Text.Lower: ASCII-only lower-casing; Python's Unicode `str.lower` is not modelled.
- The unrestricted `titulo` and `formato` setters (lines 29-31, 62-64) are not modelled. Neither is called by the store, and the title setter could break uniqueness.
- Object identity is not modelled: lending and returning change the entry at its position in the catalog. This matches the program as long as no object appears twice in the list, and neither adding nor loading puts one there twice.
