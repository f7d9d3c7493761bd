/** The decision logic of the chat front end, lifted out of its handlers:
    resolving a book reference to an id, normalising the payload of an add
    intent, the review-date rule of an update intent, the text shown for one
    record, and the rewrite of the ALLOWED_CHAT_IDS line of a .env file. The
    current date is a parameter; the chat is not modelled. */
module Bot {
  import opened Outcomes
  import opened Text
  import opened PyValues
  import opened Sheets
  import opened ExcelStore
  import opened Config

  // ---------- resolve_ref_to_id ----------

  /** What resolve_ref_to_id returns: None, an int (type "id"), the trimmed
      text of a found row's id, or the pair (None, []) for a reference kind it
      does not know; or the exception it raises. */
  datatype Resolved =
    | NoBook
    | BookNumber(n: int)
    | BookText(id: string)
    | NoneAndEmpty
    | ResolveFailed(e: Error)

  /** The reference kinds resolved by a search. */
  predicate IsSearchKind(kind: string) {
    kind == "isbn" || kind == "ano" || kind == "titulo" || kind == "autor"
  }

  /** The reference value: "value", or, for an id reference without one, a
      misplaced "id". */
  function RefValue(f: map<string, Value>, kind: string): (raw: Value)
    ensures Get(f, "value") != Null ==> raw == Get(f, "value")
  {
    var raw := Get(f, "value");
    if raw.Null? && kind == "id" then Get(f, "id") else raw
  }

  /** A search on one criterion, limited to 10 results, that must find
      exactly one row. */
  function ResolveSearch(s: Sheet, kind: string, value: string): Resolved {
    match FindSpec(s, map[kind := value], 10)
    case Err(e) => ResolveFailed(e)
    case Ok(res) =>
      if |res| == 1 then
        var rid := Get(res[0], "id");
        if rid.Null? then NoBook else BookText(Strip(PyStr(rid)))
      else NoBook
  }

  /** resolve_ref_to_id once the kind is known (trimmed and lower-cased). */
  function ResolveKind(s: Sheet, f: map<string, Value>, kind: string): Resolved {
    if kind == "" then NoBook
    else
      var raw := RefValue(f, kind);
      if raw.Null? then NoBook
      else
        var value := Strip(PyStr(raw));
        if value == "" then NoBook
        else if kind == "id" then
          match ParseInt(value)
          case Some(n) => BookNumber(n)
          case None => ResolveFailed(ValueError)
        else if IsSearchKind(kind) then ResolveSearch(s, kind, value)
        else NoneAndEmpty
  }

  /** resolve_ref_to_id: a reference that is not a dict resolves to nothing;
      a "type" that is set but not text raises on strip(). */
  function ResolveRef(s: Sheet, ref: Json): Resolved {
    match ref
    case Atom(_) => NoBook
    case Obj(f) =>
      var t := Or(Get(f, "type"), Str(""));
      if !t.Str? then ResolveFailed(AttributeError)
      else ResolveKind(s, f, Lower(Strip(t.s)))
  }

  /** The kind a reference names, when it is a dict with a text "type". */
  function RefKind(ref: Json): Option<string> {
    if ref.Obj? && Get(ref.fields, "type").Str? then Some(Lower(Strip(Get(ref.fields, "type").s)))
    else None
  }

  /** Only a search kind looks at the store: every other reference resolves
      the same way whatever the sheet holds. */
  lemma ResolveStoreFree(s1: Sheet, s2: Sheet, ref: Json)
    requires RefKind(ref).None? || !IsSearchKind(RefKind(ref).value)
    ensures ResolveRef(s1, ref) == ResolveRef(s2, ref)
  {
  }

  lemma KindOfId(t: string)
    requires Lower(Strip(t)) == "id"
    ensures t != ""
  {
    assert Strip("") == "";
  }

  /** An id reference holding an int resolves to that int, whether it comes
      as "value" or, without a "value", as "id"; the store is not asked
      whether the book exists. */
  lemma ResolveById(s: Sheet, f: map<string, Value>, t: string, n: int)
    requires Get(f, "type") == Str(t) && Lower(Strip(t)) == "id"
    requires Get(f, "value") == Int(n) || (Get(f, "value") == Null && Get(f, "id") == Int(n))
    ensures ResolveRef(s, Obj(f)) == BookNumber(n)
  {
    KindOfId(t);
    IntToStringShape(n);
    IntRoundTrip(n);
  }

  /** An id reference whose text is not an integer makes int() raise. */
  lemma ResolveByIdNotInt(s: Sheet, f: map<string, Value>, t: string, v: string)
    requires Get(f, "type") == Str(t) && Lower(Strip(t)) == "id"
    requires Get(f, "value") == Str(v) && Strip(v) != "" && ParseInt(Strip(v)).None?
    ensures ResolveRef(s, Obj(f)) == ResolveFailed(ValueError)
  {
    KindOfId(t);
  }

  /** A blank kind, or a missing or blank value, resolves to nothing. */
  lemma ResolveBlank(s: Sheet, f: map<string, Value>)
    requires var t := Or(Get(f, "type"), Str(""));
             t.Str? &&
             (Lower(Strip(t.s)) == "" ||
              (Get(f, "value").Str? && Strip(Get(f, "value").s) == "") ||
              (Get(f, "value") == Null && Get(f, "id") == Null))
    ensures ResolveRef(s, Obj(f)) == NoBook
  {
    assert Strip("") == "";
  }

  /** Any other kind, "editorial" included, yields the pair (None, []). */
  lemma ResolveEditorial(s: Sheet, f: map<string, Value>, t: string, v: string)
    requires Get(f, "type") == Str(t)
    requires var k := Lower(Strip(t)); k != "" && k != "id" && !IsSearchKind(k)
    requires Get(f, "value") == Str(v) && Strip(v) != ""
    ensures ResolveRef(s, Obj(f)) == NoneAndEmpty
  {
  }

  /** Record j is the only record matching the criteria. */
  ghost predicate OnlyMatch(recs: seq<Record>, crit: map<string, string>, j: int) {
    && 0 <= j < |recs| && MatchesAll(recs[j], crit)
    && forall i :: 0 <= i < |recs| && i != j ==> !MatchesAll(recs[i], crit)
  }

  /** No match at all exactly when the filter is empty. */
  lemma MatchingNone(recs: seq<Record>, crit: map<string, string>)
    ensures Matching(recs, crit) == [] <==> forall i :: 0 <= i < |recs| ==> !MatchesAll(recs[i], crit)
  {
    MatchingComplete(recs, crit);
    var m := Matching(recs, crit);
    if m != [] {
      assert m[0] in recs && MatchesAll(m[0], crit);
    }
  }

  lemma MatchingSingle(rec: Record, crit: map<string, string>)
    ensures Matching([rec], crit) == if MatchesAll(rec, crit) then [rec] else []
  {
    assert [rec][..0] == [];
  }

  /** A slice with no matching record filters to nothing. */
  lemma MatchingNoneIn(recs: seq<Record>, crit: map<string, string>, lo: int, hi: int)
    requires 0 <= lo <= hi <= |recs|
    requires forall i :: lo <= i < hi ==> !MatchesAll(recs[i], crit)
    ensures Matching(recs[lo..hi], crit) == []
  {
    var part := recs[lo..hi];
    forall k | 0 <= k < |part|
      ensures !MatchesAll(part[k], crit)
    {
      assert part[k] == recs[lo + k];
    }
    MatchingNone(part, crit);
  }

  /** The filter around one record: what matches before it, the record if
      it matches, what matches after it. */
  lemma MatchingAround(recs: seq<Record>, crit: map<string, string>, j: int)
    requires 0 <= j < |recs|
    ensures Matching(recs, crit) ==
              Matching(recs[..j], crit) + Matching([recs[j]], crit) + Matching(recs[j + 1..], crit)
  {
    var a := recs[..j];
    var b := recs[j + 1..];
    MatchingAppend(a, [recs[j]] + b, crit);
    assert a + ([recs[j]] + b) == recs;
    MatchingAppend([recs[j]], b, crit);
  }

  /** Two distinct matching records: the filter holds more than one. */
  lemma MatchingTwo(recs: seq<Record>, crit: map<string, string>, i: int, j: int)
    requires 0 <= i < j < |recs|
    requires MatchesAll(recs[i], crit) && MatchesAll(recs[j], crit)
    ensures |Matching(recs, crit)| >= 2
  {
    MatchingAround(recs, crit, j);
    MatchingSingle(recs[j], crit);
    var a := recs[..j];
    assert a[i] == recs[i];
    MatchingNone(a, crit);
  }

  /** The only matching record is all the filter holds ... */
  lemma MatchingOnly(recs: seq<Record>, crit: map<string, string>, j: int)
    requires OnlyMatch(recs, crit, j)
    ensures Matching(recs, crit) == [recs[j]]
  {
    MatchingAround(recs, crit, j);
    MatchingSingle(recs[j], crit);
    MatchingNoneIn(recs, crit, 0, j);
    assert recs[0..j] == recs[..j];
    MatchingNoneIn(recs, crit, j + 1, |recs|);
    assert recs[j + 1..|recs|] == recs[j + 1..];
  }

  /** ... and a filter holding one record has exactly one matching record. */
  lemma MatchingOne(recs: seq<Record>, crit: map<string, string>)
    ensures |Matching(recs, crit)| == 1 <==> exists j :: OnlyMatch(recs, crit, j)
    ensures forall j :: OnlyMatch(recs, crit, j) ==> Matching(recs, crit) == [recs[j]]
  {
    forall j | OnlyMatch(recs, crit, j)
      ensures Matching(recs, crit) == [recs[j]]
    {
      MatchingOnly(recs, crit, j);
    }
    var m := Matching(recs, crit);
    if |m| == 1 {
      var j :| 0 <= j < |recs| && recs[j] == m[0];
      forall i | 0 <= i < |recs| && i != j
        ensures !MatchesAll(recs[i], crit)
      {
        if MatchesAll(recs[i], crit) {
          if i < j { MatchingTwo(recs, crit, i, j); } else { MatchingTwo(recs, crit, j, i); }
        }
      }
      assert OnlyMatch(recs, crit, j);
    }
  }

  /** The exactly-one policy of a search reference: it names a book exactly
      when one record of the sheet matches the criterion and has an id, and
      then the id is that record's trimmed id text. */
  lemma ResolveSearchUnique(s: Sheet, kind: string, value: string)
    requires OpenIndex(s).Ok? && Strip(value) != ""
    ensures var crit := CleanCriteria(map[kind := value]);
            var recs := Records(s.rows, OpenIndex(s).value);
            var r := ResolveSearch(s, kind, value);
            && (r.BookText? <==> exists j :: OnlyMatch(recs, crit, j) && Get(recs[j], "id") != Null)
            && (forall j :: OnlyMatch(recs, crit, j) && Get(recs[j], "id") != Null ==>
                  r == BookText(Strip(PyStr(Get(recs[j], "id")))))
            && (r.NoBook? || r.BookText?)
  {
    var crit := CleanCriteria(map[kind := value]);
    assert kind in crit;
    var recs := Records(s.rows, OpenIndex(s).value);
    MatchingOne(recs, crit);
  }

  /** Two matching records: the reference is refused as ambiguous. */
  lemma ResolveSearchAmbiguous(s: Sheet, kind: string, value: string, i: int, j: int)
    requires OpenIndex(s).Ok? && Strip(value) != ""
    requires var recs := Records(s.rows, OpenIndex(s).value);
             var crit := CleanCriteria(map[kind := value]);
             && 0 <= i < |recs| && 0 <= j < |recs| && i != j
             && MatchesAll(recs[i], crit) && MatchesAll(recs[j], crit)
    ensures ResolveSearch(s, kind, value) == NoBook
  {
    var crit := CleanCriteria(map[kind := value]);
    assert kind in crit;
    var recs := Records(s.rows, OpenIndex(s).value);
    if i < j { MatchingTwo(recs, crit, i, j); } else { MatchingTwo(recs, crit, j, i); }
  }

  lemma SearchKindShape(kind: string)
    requires IsSearchKind(kind)
    ensures kind != "" && kind != "id"
  {
  }

  lemma KindNotBlank(t: string)
    requires Lower(Strip(t)) != ""
    ensures t != ""
  {
    assert Strip("") == "";
  }

  /** A search reference with a text value goes to that search. */
  lemma ResolveBySearch(s: Sheet, f: map<string, Value>, t: string, v: string)
    requires Get(f, "type") == Str(t) && IsSearchKind(Lower(Strip(t)))
    requires Get(f, "value") == Str(v) && Strip(v) != ""
    ensures ResolveRef(s, Obj(f)) == ResolveSearch(s, Lower(Strip(t)), Strip(v))
  {
    var kind := Lower(Strip(t));
    SearchKindShape(kind);
    KindNotBlank(t);
    assert ResolveKind(s, f, kind) == ResolveSearch(s, kind, Strip(v));
  }

  // ---------- add-payload normalisation ----------

  /** The keys of the internal book record whose values are text ... */
  const TextKeys: seq<string> :=
    ["titulo", "autor", "procedencia", "categoria", "editorial", "isbn", "f_revision", "comentarios"]

  /** ... and those passed on as they come. */
  const RawKeys: seq<string> := ["ano", "columna", "fila"]

  lemma KeysApart()
    ensures forall k :: k in RawKeys ==> k !in TextKeys
  {
  }

  /** str(v or "").strip() */
  function TextOf(v: Value): (t: string)
    ensures Strip(t) == t
  {
    StripIdempotent(PyStr(Or(v, Str(""))));
    Strip(PyStr(Or(v, Str(""))))
  }

  /** Text that is already trimmed reads back as itself. */
  lemma TextOfTrimmed(t: string)
    requires Strip(t) == t
    ensures TextOf(Str(t)) == t
  {
  }

  /** The internal book record: the eleven keys, text trimmed, year, column
      and row passed through. */
  function Normalise(b: map<string, Value>): (r: map<string, Value>)
    ensures forall k :: k in r <==> k in TextKeys || k in RawKeys
    ensures forall k :: k in TextKeys ==> r[k].Str? && Strip(r[k].s) == r[k].s && r[k].s == TextOf(Get(b, k))
    ensures forall k :: k in RawKeys ==> r[k] == Get(b, k)
  {
    KeysApart();
    map k | k in TextKeys + RawKeys :: if k in TextKeys then Str(TextOf(Get(b, k))) else Get(b, k)
  }

  /** Normalising a normalised record changes nothing. */
  lemma NormaliseIdempotent(b: map<string, Value>)
    ensures Normalise(Normalise(b)) == Normalise(b)
  {
    var n := Normalise(b);
    forall k | k in TextKeys
      ensures Normalise(n)[k] == n[k]
    {
      TextOfTrimmed(n[k].s);
    }
  }

  /** The old data shape keyed by the sheet's display headers, mapped to
      internal keys; strip() on a value that is not text raises. */
  function FromHeaders(d: map<string, Value>): Result<map<string, Value>> {
    var titulo := Or(Get(d, "Título"), Str(""));
    var autor := Or(Get(d, "Autor"), Str(""));
    var procedencia := Or(Get(d, "Procedencia"), Str(""));
    var categoria := Or(Get(d, "Categoría"), Or(Get(d, "Categoria"), Str("")));
    var editorial := Or(Get(d, "Editorial"), Str(""));
    var isbn := Or(Get(d, "ISBN"), Str(""));
    var revision := Or(Get(d, "F_revision"), Or(Get(d, "F_revisión"), Str("")));
    var comentarios := Or(Get(d, "Comentarios"), Str(""));
    if !(titulo.Str? && autor.Str? && procedencia.Str? && categoria.Str? && editorial.Str?
         && isbn.Str? && revision.Str? && comentarios.Str?)
    then Err(AttributeError)
    else
      Ok(map[
        "titulo" := Str(Strip(titulo.s)),
        "autor" := Str(Strip(autor.s)),
        "procedencia" := Str(Strip(procedencia.s)),
        "categoria" := Str(Strip(categoria.s)),
        "editorial" := Str(Strip(editorial.s)),
        "ano" := Get(d, "Año"),
        "columna" := Get(d, "Columna"),
        "fila" := Get(d, "Fila"),
        "isbn" := Str(Strip(isbn.s)),
        "f_revision" := Str(Strip(revision.s)),
        "comentarios" := Str(Strip(comentarios.s))])
  }

  /** Where the handler takes the book from: a dict "book"; else a dict
      "data" with internal keys, or with display headers; else, when "data"
      is not a dict, the root fields of the intent. None: a "data" dict of
      neither kind. */
  function AddSource(book: Json, data: Json, root: map<string, Value>): Result<Option<map<string, Value>>> {
    if book.Obj? then Ok(Some(book.fields))
    else if data.Obj? then
      if "titulo" in data.fields then Ok(Some(data.fields))
      else if "Título" in data.fields then
        match FromHeaders(data.fields)
        case Err(e) => Err(e)
        case Ok(b) => Ok(Some(b))
      else Ok(None)
    else Ok(Some(Normalise(root)))
  }

  /** The outcome of the add intent's payload handling. */
  datatype AddPayload =
    | NotUnderstood
    | MissingTitle
    | NormalisedBook(book: map<string, Value>)
    | AddRaised(e: Error)

  /** The payload handling of the add intent, up to the call of add. */
  function NormaliseAdd(book: Json, data: Json, root: map<string, Value>): AddPayload {
    match AddSource(book, data, root)
    case Err(e) => AddRaised(e)
    case Ok(None) => NotUnderstood
    case Ok(Some(b)) => if TextOf(Get(b, "titulo")) == "" then MissingTitle else NormalisedBook(Normalise(b))
  }

  /** What reaches add: the eleven internal keys, text trimmed, a title that
      is not blank, year, column and row as the payload gave them. */
  lemma NormalisedShape(book: Json, data: Json, root: map<string, Value>)
    requires NormaliseAdd(book, data, root).NormalisedBook?
    ensures var b := NormaliseAdd(book, data, root).book;
            && (forall k :: k in b <==> k in TextKeys || k in RawKeys)
            && (forall k :: k in TextKeys ==> b[k].Str? && Strip(b[k].s) == b[k].s)
            && b["titulo"].s != ""
  {
  }

  /** A payload is refused as not understood exactly when there is no "book"
      dict and "data" is a dict with neither a "titulo" nor a "Título" key. */
  lemma NotUnderstoodIff(book: Json, data: Json, root: map<string, Value>)
    ensures NormaliseAdd(book, data, root) == NotUnderstood <==>
              !book.Obj? && data.Obj? && "titulo" !in data.fields && "Título" !in data.fields
  {
  }

  /** The root fields are read exactly as a "book" dict holding them. */
  lemma RootFieldsAsBook(book: Json, data: Json, root: map<string, Value>)
    requires !book.Obj? && !data.Obj?
    ensures NormaliseAdd(book, data, root) == NormaliseAdd(Obj(root), data, root)
  {
    var n := Normalise(root);
    NormaliseIdempotent(root);
    TextOfTrimmed(n["titulo"].s);
  }

  /** Text that is set, or a falsy value: strip() on `v or ""` succeeds. */
  predicate TextOrNothing(v: Value) {
    v.Str? || !Truthy(v)
  }

  /** The display-header shape raises only for a value that is set and is
      not text: a "data" dict holding text (or nothing) is always read. */
  lemma HeadersOfTextRead(d: map<string, Value>)
    requires forall h :: h in d ==> TextOrNothing(d[h])
    ensures FromHeaders(d).Ok?
  {
  }

  /** The display headers read first for the text keys. */
  const TextHeaders: seq<string> :=
    ["Título", "Autor", "Procedencia", "Categoría", "Editorial", "ISBN", "F_revision", "Comentarios"]

  /** ... and a value under one of them that is set but not text raises. */
  lemma HeadersNonTextRaise(d: map<string, Value>, h: string)
    requires h in TextHeaders && h in d && !TextOrNothing(d[h])
    ensures FromHeaders(d) == Err(AttributeError)
  {
  }

  // ---------- the f_revision rule of the update intent ----------

  /** A calendar date as datetime.now() gives it. */
  datatype Date = Date(day: nat, month: nat, year: nat)

  predicate ValidDate(d: Date) {
    1 <= d.day <= 31 && 1 <= d.month <= 12 && 1000 <= d.year <= 9999
  }

  /** Two decimal digits, zero-padded. */
  function Digits2(n: nat): (r: string)
    requires n < 100
    ensures |r| == 2 && IsDigit(r[0]) && IsDigit(r[1])
  {
    [DigitChar(n / 10), DigitChar(n % 10)]
  }

  /** strftime("%d/%m/%Y"). */
  function FormatDate(d: Date): (r: string)
    requires ValidDate(d)
    ensures |r| == 10
  {
    Digits2(d.day) + "/" + Digits2(d.month) + "/" + Digits2(d.year / 100) + Digits2(d.year % 100)
  }

  /** The value of a run of decimal digits at [lo, hi). */
  function DigitsAt(s: string, lo: nat, hi: nat): nat
    requires lo <= hi <= |s| && forall i :: lo <= i < hi ==> IsDigit(s[i])
  {
    DigitsValue(s[lo..hi])
  }

  lemma Digits2Value(n: nat)
    requires n < 100
    ensures DigitsValue(Digits2(n)) == n
  {
    var r := Digits2(n);
    assert r[..1] == [r[0]];
    assert [r[0]][..0] == [];
    assert DigitValue(r[0]) == n / 10 && DigitValue(r[1]) == n % 10;
    assert DigitsValue(r[..1]) == n / 10;
  }

  lemma Digits4Value(n: nat)
    requires n < 10000
    ensures var s := Digits2(n / 100) + Digits2(n % 100);
            forall i :: 0 <= i < |s| ==> IsDigit(s[i])
    ensures DigitsValue(Digits2(n / 100) + Digits2(n % 100)) == n
  {
    var hi := Digits2(n / 100);
    var lo := Digits2(n % 100);
    var s := hi + lo;
    assert s[..3][..2] == hi;
    assert s[..3] == s[..2] + [s[2]];
    Digits2Value(n / 100);
    assert DigitsValue(s[..3]) == (n / 100) * 10 + (n % 100) / 10;
    assert DigitsValue(s) == ((n / 100) * 10 + (n % 100) / 10) * 10 + n % 10;
  }

  /** Reading dd/mm/YYYY back gives the date: the format loses nothing. */
  lemma FormatDateRoundTrip(d: Date)
    requires ValidDate(d)
    ensures var r := FormatDate(d);
            && r[2] == '/' && r[5] == '/'
            && (forall i :: 0 <= i < 10 && i != 2 && i != 5 ==> IsDigit(r[i]))
            && DigitsAt(r, 0, 2) == d.day && DigitsAt(r, 3, 5) == d.month
            && DigitsAt(r, 6, 10) == d.year
  {
    var r := FormatDate(d);
    var a := Digits2(d.day);
    var b := Digits2(d.month);
    var c := Digits2(d.year / 100) + Digits2(d.year % 100);
    assert r == a + "/" + b + "/" + c;
    assert r[0..2] == a;
    assert r[3..5] == b;
    assert r[6..10] == c;
    Digits2Value(d.day);
    Digits2Value(d.month);
    Digits4Value(d.year);
  }

  /** The review marks that stand for "reviewed today": after trimming and
      lower-casing "", "revisado", "true", "sí" or "si"; or the value True
      (which the int 1 equals). */
  predicate ReviewMark(v: Value) {
    match v
    case Str(s) =>
      var w := Lower(Strip(s));
      w == "" || w == "revisado" || w == "true" || w == "sí" || w == "si"
    case Bool(b) => b
    case Int(i) => i == 1
    case Null => false
  }

  /** The value stored for f_revision. */
  function RevisionValue(v: Value, today: Date): (r: Value)
    requires ValidDate(today)
  {
    if v == Str("EMPTY") then Str("")
    else if ReviewMark(v) then Str(FormatDate(today))
    else v
  }

  /** The f_revision rule, applied to the changes before update_fields; the
      other changes are left alone. */
  method NormaliseRevision(changes: map<string, Value>, today: Date) returns (out: map<string, Value>)
    requires ValidDate(today)
    ensures "f_revision" !in changes ==> out == changes
    ensures "f_revision" in changes ==>
              out == changes["f_revision" := RevisionValue(changes["f_revision"], today)]
  {
    out := changes;
    if "f_revision" in changes {
      var v := changes["f_revision"];
      if v == Str("EMPTY") {
        out := out["f_revision" := Str("")];
      } else {
        var reviewed: bool;
        match v {
          case Str(s) =>
            var w := Lower(Strip(s));
            reviewed := w == "" || w == "revisado" || w == "true" || w == "sí" || w == "si";
          case Bool(b) => reviewed := b;
          case Int(i) => reviewed := i == 1;
          case Null => reviewed := false;
        }
        if reviewed {
          out := out["f_revision" := Str(FormatDate(today))];
        } else {
          out := out["f_revision" := v];
        }
      }
    }
  }

  /** An explicit date is kept as given ... */
  lemma ExplicitDateKept(d: Date, today: Date)
    requires ValidDate(d) && ValidDate(today)
    ensures RevisionValue(Str(FormatDate(d)), today) == Str(FormatDate(d))
  {
    var r := FormatDate(d);
    FormatDateRoundTrip(d);
    StripFixed(r);
    assert Lower(r)[2] == '/';
  }

  /** ... so the rule leaves the date it writes alone: applying it to its own
      result for a review mark changes nothing. */
  lemma ReviewedStaysToday(v: Value, today: Date)
    requires ValidDate(today) && v != Str("EMPTY") && ReviewMark(v)
    ensures RevisionValue(RevisionValue(v, today), today) == RevisionValue(v, today)
  {
    ExplicitDateKept(today, today);
  }

  /** The marks are read regardless of case and surrounding white space. */
  lemma ReviewMarkIgnoresCase(s: string)
    ensures ReviewMark(Str(Lower(s))) == ReviewMark(Str(s))
    ensures ReviewMark(Str(Strip(s))) == ReviewMark(Str(s))
  {
    StripLower(s);
    LowerIdempotent(Strip(s));
    StripIdempotent(s);
  }

  // ---------- fmt_row ----------

  /** The fields fmt_row shows, in order: the label printed and the record
      key read. */
  const Labels: seq<(string, string)> := [
    ("Título", "Título"), ("Autor", "Autor"), ("Procedencia", "Procedencia"),
    ("Categoría", "Categoría"), ("Editorial", "Editorial"), ("Año", "Año"),
    ("Columna", "Columna"), ("Fila", "Fila"), ("ISBN", "ISBN"),
    ("F. revisión", "F_revision"), ("Comentarios", "Comentarios")]

  /** A value fmt_row prints: anything but None, "" and "None". */
  predicate Shown(v: Value) {
    v != Null && v != Str("") && v != Str("None")
  }

  /** The first line: the book emoji and the id in bold. */
  function IdLine(r: Record): string {
    "\U{1F4DA} <b>Id-" + PyStr(Get(r, "id")) + "</b>"
  }

  function FieldLine(caption: string, v: Value): string {
    "<b>" + caption + "</b>: " + PyStr(v)
  }

  /** The lines of the shown fields among `ls`, in the order of `ls`. */
  function FieldLines(r: Record, ls: seq<(string, string)>): (out: seq<string>)
    ensures |out| <= |ls|
    decreases |ls|
  {
    if ls == [] then []
    else
      var v := Get(r, ls[|ls| - 1].1);
      FieldLines(r, ls[..|ls| - 1]) + (if Shown(v) then [FieldLine(ls[|ls| - 1].0, v)] else [])
  }

  function RowLines(r: Record): seq<string> {
    [IdLine(r)] + FieldLines(r, Labels)
  }

  lemma FieldLinesStep(r: Record, ls: seq<(string, string)>, i: nat)
    requires i < |ls|
    ensures var v := Get(r, ls[i].1);
            FieldLines(r, ls[..i + 1]) ==
              FieldLines(r, ls[..i]) + (if Shown(v) then [FieldLine(ls[i].0, v)] else [])
  {
    assert ls[..i + 1][..i] == ls[..i];
  }

  /** fmt_row. */
  method FormatRow(r: Record) returns (text: string)
    ensures text == Join(RowLines(r), "\n")
  {
    var lines := [IdLine(r)];
    var i := 0;
    while i < |Labels|
      invariant 0 <= i <= |Labels|
      invariant lines == [IdLine(r)] + FieldLines(r, Labels[..i])
    {
      var v := Get(r, Labels[i].1);
      FieldLinesStep(r, Labels, i);
      if Shown(v) {
        lines := lines + [FieldLine(Labels[i].0, v)];
      }
      i := i + 1;
    }
    assert Labels[..i] == Labels;
    text := Join(lines, "\n");
  }

  /** The lines of a prefix of the labels come first. */
  lemma {:induction false} FieldLinesPrefix(r: Record, ls: seq<(string, string)>, i: nat)
    requires i <= |ls|
    ensures var pre := FieldLines(r, ls[..i]);
            |pre| <= |FieldLines(r, ls)| && pre == FieldLines(r, ls)[..|pre|]
    decreases |ls|
  {
    if i < |ls| {
      var init := ls[..|ls| - 1];
      FieldLinesPrefix(r, init, i);
      assert init[..i] == ls[..i];
    } else {
      assert ls[..i] == ls;
    }
  }

  /** A shown field has its line, at the position after the lines of the
      shown fields before it ... */
  lemma FieldLineAt(r: Record, ls: seq<(string, string)>, i: nat)
    requires i < |ls| && Shown(Get(r, ls[i].1))
    ensures var p := |FieldLines(r, ls[..i])|;
            p < |FieldLines(r, ls)| && FieldLines(r, ls)[p] == FieldLine(ls[i].0, Get(r, ls[i].1))
  {
    FieldLinesPrefix(r, ls, i + 1);
    assert ls[..i + 1][..i] == ls[..i];
  }

  /** ... so the shown fields appear in the order of the labels ... */
  lemma FieldLinesOrdered(r: Record, ls: seq<(string, string)>, i: nat, j: nat)
    requires i < j < |ls|
    ensures |FieldLines(r, ls[..i])| + (if Shown(Get(r, ls[i].1)) then 1 else 0) <= |FieldLines(r, ls[..j])|
  {
    FieldLinesPrefix(r, ls[..j], i + 1);
    assert ls[..j][..i + 1] == ls[..i + 1];
    assert ls[..i + 1][..i] == ls[..i];
  }

  /** ... and every line is the line of a shown field. */
  lemma {:induction false} FieldLinesShown(r: Record, ls: seq<(string, string)>, p: nat)
    requires p < |FieldLines(r, ls)|
    ensures exists i :: 0 <= i < |ls| && Shown(Get(r, ls[i].1))
                        && FieldLines(r, ls)[p] == FieldLine(ls[i].0, Get(r, ls[i].1))
    decreases |ls|
  {
    var init := ls[..|ls| - 1];
    if p < |FieldLines(r, init)| {
      FieldLinesShown(r, init, p);
      var i :| 0 <= i < |init| && Shown(Get(r, init[i].1))
               && FieldLines(r, init)[p] == FieldLine(init[i].0, Get(r, init[i].1));
      assert init[i] == ls[i];
    } else {
      assert Shown(Get(r, ls[|ls| - 1].1));
    }
  }

  /** No shown field: no field line. */
  lemma {:induction false} FieldLinesNone(r: Record, ls: seq<(string, string)>)
    requires forall i :: 0 <= i < |ls| ==> !Shown(Get(r, ls[i].1))
    ensures FieldLines(r, ls) == []
    decreases |ls|
  {
    if ls != [] {
      FieldLinesNone(r, ls[..|ls| - 1]);
    }
  }

  /** What the add handler prints when the new row cannot be read back: the
      id line alone. */
  lemma FormatNewIdOnly(n: int)
    ensures RowLines(map["id" := Int(n)]) == ["\U{1F4DA} <b>Id-" + IntToString(n) + "</b>"]
  {
    FieldLinesNone(map["id" := Int(n)], Labels);
  }

  lemma LabelsOnOneLine()
    ensures forall i :: 0 <= i < |Labels| ==> '\n' !in Labels[i].0
  {
  }

  lemma LineOfText(pre: string, t: string, post: string)
    requires '\n' !in pre && '\n' !in t && '\n' !in post
    ensures '\n' !in pre + t + post
  {
  }

  /** No line of the text breaks: when no value holds a line feed, the text
      splits back into exactly its lines. */
  lemma FormatRowSplits(r: Record)
    requires forall k :: k in r ==> '\n' !in PyStr(r[k])
    ensures Split(Join(RowLines(r), "\n"), '\n') == RowLines(r)
  {
    var lines := RowLines(r);
    LabelsOnOneLine();
    forall p | 0 <= p < |lines|
      ensures '\n' !in lines[p]
    {
      if p == 0 {
        LineOfText("\U{1F4DA} <b>Id-", PyStr(Get(r, "id")), "</b>");
      } else {
        FieldLinesShown(r, Labels, p - 1);
        var i :| 0 <= i < |Labels| && Shown(Get(r, Labels[i].1))
                 && lines[p] == FieldLine(Labels[i].0, Get(r, Labels[i].1));
        LineOfText("<b>", Labels[i].0, "</b>: ");
        LineOfText("<b>" + Labels[i].0 + "</b>: ", PyStr(Get(r, Labels[i].1)), "");
        assert lines[p] == "<b>" + Labels[i].0 + "</b>: " + PyStr(Get(r, Labels[i].1)) + "";
      }
    }
    JoinSplit(lines, '\n');
  }
}
