/** A catalog entry (a `Libro`, or a `LibroDigital` carrying a format), its
    guarded state setter, and its encoding to and from the key/value record
    that is written as one line of the backing file. */
module Entries {
  import opened Results

  /** The two loan states the state setter accepts. */
  const Available: string := "Disponible"
  const Loaned: string := "Prestado"

  predicate IsValidState(s: string) {
    s == Available || s == Loaned
  }

  /** Errors the program raises: `ValueError` from the state setter
      (InvalidState) and from a second loan (AlreadyLoaned), `IndexError`
      when no entry has the requested title (NotFound). */
  datatype Error = NotFound | AlreadyLoaned | InvalidState

  /** The variant tag: a plain book, or a digital one with its format. */
  datatype Kind = Plain | Digital(format: string)

  /** One book. The state is a plain string because neither the constructor
      nor the decoder checks it; only the setter does. */
  datatype Entry = Entry(title: string, author: string, year: string, state: string, kind: Kind)

  /** A new entry as built from user input: the state defaults to Available. */
  function NewEntry(title: string, author: string, year: string, kind: Kind): (r: Entry)
    ensures r.state == Available && IsValidState(r.state)
    ensures r.title == title && r.author == author && r.year == year && r.kind == kind
  {
    Entry(title, author, year, Available, kind)
  }

  /** `a` and `b` agree on every field except possibly the state. */
  predicate SameExceptState(a: Entry, b: Entry) {
    a.title == b.title && a.author == b.author && a.year == b.year && a.kind == b.kind
  }

  /** The `estado` setter: only the two known states are accepted. */
  function SetState(e: Entry, s: string): (r: Result<Entry, Error>)
    ensures r.Ok? <==> IsValidState(s)
    ensures r.Err? ==> r.error == InvalidState
    ensures r.Ok? ==> r.value.state == s && SameExceptState(r.value, e)
  {
    if IsValidState(s) then Ok(e.(state := s)) else Err(InvalidState)
  }

  // ---------------------------------------------------------------------
  // Records

  /** A decoded line of the backing file: field name to field value. */
  type Record = map<string, string>

  const KeyType: string := "tipo"
  const KeyTitle: string := "titulo"
  const KeyAuthor: string := "autor"
  const KeyYear: string := "anio_publicacion"
  const KeyState: string := "estado"
  const KeyFormat: string := "formato"

  const TagPlain: string := "Libro"
  const TagDigital: string := "LibroDigital"

  /** The keys a plain entry's record carries. */
  const PlainKeys: set<string> := {KeyType, KeyTitle, KeyAuthor, KeyYear, KeyState}

  /** `to_dict`: every field under its key, the variant tag under "tipo",
      and "formato" only for the digital variant. */
  function Encode(e: Entry): (r: Record)
    ensures r.Keys == if e.kind.Digital? then PlainKeys + {KeyFormat} else PlainKeys
    ensures r[KeyType] == TagDigital <==> e.kind.Digital?
    ensures r[KeyType] == TagPlain <==> e.kind.Plain?
    ensures r[KeyTitle] == e.title && r[KeyAuthor] == e.author
    ensures r[KeyYear] == e.year && r[KeyState] == e.state
    ensures e.kind.Digital? ==> r[KeyFormat] == e.kind.format
  {
    var base := map[KeyType := TagPlain, KeyTitle := e.title, KeyAuthor := e.author,
                    KeyYear := e.year, KeyState := e.state];
    match e.kind
    case Plain => base
    case Digital(f) => base[KeyType := TagDigital][KeyFormat := f]
  }

  /** Decoding fails with the name of the first key the constructor call
      looks up and does not find (Python's `KeyError`). */
  datatype DecodeError = MissingKey(key: string)

  /** The record asks for the digital variant: `data.get("tipo") == "LibroDigital"`. */
  predicate IsDigitalRecord(d: Record) {
    KeyType in d && d[KeyType] == TagDigital
  }

  /** The keys the constructor call reads, in the order its arguments are evaluated. */
  function RequiredKeys(d: Record): seq<string> {
    if IsDigitalRecord(d) then [KeyTitle, KeyAuthor, KeyYear, KeyFormat, KeyState]
    else [KeyTitle, KeyAuthor, KeyYear, KeyState]
  }

  /** The first of `keys` that `d` lacks, if any. */
  function FirstMissing(d: Record, keys: seq<string>): (r: Option<string>)
    ensures r.None? <==> forall i :: 0 <= i < |keys| ==> keys[i] in d
    ensures r.Some? ==> exists i :: 0 <= i < |keys| && keys[i] == r.value &&
                          r.value !in d && forall j :: 0 <= j < i ==> keys[j] in d
  {
    if keys == [] then None
    else if keys[0] !in d then Some(keys[0])
    else
      match FirstMissing(d, keys[1..])
      case None => None
      case Some(k) =>
        var i :| 0 <= i < |keys[1..]| && keys[1..][i] == k && k !in d &&
                 forall j :: 0 <= j < i ==> keys[1..][j] in d;
        assert keys[i + 1] == k;
        Some(k)
  }

  /** The per-record branch of loading: pick the variant from "tipo" (any
      value other than "LibroDigital", or none, means plain) and read the
      fields; the state is taken as stored, without validation. */
  function Decode(d: Record): (r: Result<Entry, DecodeError>)
    ensures r.Ok? <==> forall k :: k in RequiredKeys(d) ==> k in d
    ensures r.Err? ==> r.error.key in RequiredKeys(d) && r.error.key !in d
    ensures r.Ok? ==> (r.value.kind.Digital? <==> IsDigitalRecord(d))
    ensures r.Ok? ==> r.value.title == d[KeyTitle] && r.value.author == d[KeyAuthor] &&
                      r.value.year == d[KeyYear] && r.value.state == d[KeyState]
    ensures r.Ok? && r.value.kind.Digital? ==> r.value.kind.format == d[KeyFormat]
  {
    match FirstMissing(d, RequiredKeys(d))
    case Some(k) => Err(MissingKey(k))
    case None =>
      var keys := RequiredKeys(d);
      assert keys[0] in d && keys[1] in d && keys[2] in d && keys[3] in d && keys[|keys| - 1] in d;
      var kind := if IsDigitalRecord(d) then Digital(d[KeyFormat]) else Plain;
      Ok(Entry(d[KeyTitle], d[KeyAuthor], d[KeyYear], d[KeyState], kind))
  }

  /** Round trip: decoding the record of an entry gives the entry back,
      variant and format included. */
  lemma DecodeEncode(e: Entry)
    ensures Decode(Encode(e)) == Ok(e)
  {
  }

  /** The other direction: a record that decodes is reproduced by encoding
      its entry on every key the decoder read, and its tag is normalised to
      "Libro" unless it was "LibroDigital". */
  lemma EncodeDecode(d: Record)
    requires Decode(d).Ok?
    ensures forall k :: k in RequiredKeys(d) ==> k in Encode(Decode(d).value) && Encode(Decode(d).value)[k] == d[k]
    ensures Encode(Decode(d).value)[KeyType] == if IsDigitalRecord(d) then TagDigital else TagPlain
    ensures KeyFormat in Encode(Decode(d).value) <==> IsDigitalRecord(d)
  {
  }
}
