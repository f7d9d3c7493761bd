/** The catalogue store: every public operation of the store as one atomic
    transition on the in-memory sheet, each proved against a specification
    function of the sheet before the call. */
module ExcelStore {
  import opened Outcomes
  import opened Text
  import opened PyValues
  import opened Sheets

  // ---------- shared pieces ----------

  /** max(lo, min(x, hi)). */
  function Clamp(x: int, lo: int, hi: int): (r: int)
    requires lo <= hi
    ensures lo <= r <= hi
    ensures lo <= x <= hi ==> r == x
    ensures x < lo ==> r == lo
    ensures x > hi ==> r == hi
  {
    if x < lo then lo else if x > hi then hi else x
  }

  /** The two ways the store compares an id cell with a requested id. */
  datatype IdTest =
    | ByText  // get_by_id, update_fields: non-empty cell, equal trimmed text
    | ByInt   // delete_and_compact: both convert with int() to the same value

  predicate IdMatches(test: IdTest, cell: Value, bookId: Value) {
    match test
    case ByText => Truthy(cell) && Strip(PyStr(cell)) == Strip(PyStr(bookId))
    case ByInt => PyInt(cell).Ok? && PyInt(bookId).Ok? && PyInt(cell).value == PyInt(bookId).value
  }

  predicate RowMatches(test: IdTest, row: Row, col: nat, bookId: Value) {
    IdMatches(test, CellAt(row, col), bookId)
  }

  /** The first data row (0-based) whose id cell passes the test. */
  function FirstMatch(test: IdTest, rows: seq<Row>, col: nat, bookId: Value): (k: Option<nat>)
    ensures k.Some? ==> k.value < |rows| && RowMatches(test, rows[k.value], col, bookId)
    ensures k.Some? ==> forall j :: 0 <= j < k.value ==> !RowMatches(test, rows[j], col, bookId)
    ensures k.None? ==> forall j :: 0 <= j < |rows| ==> !RowMatches(test, rows[j], col, bookId)
    decreases |rows|
  {
    if rows == [] then None
    else if RowMatches(test, rows[0], col, bookId) then Some(0)
    else
      match FirstMatch(test, rows[1..], col, bookId)
      case None => None
      case Some(k) => Some(k + 1)
  }

  /** A row that passes, with none passing before it, is the first match. */
  lemma FirstMatchAt(test: IdTest, rows: seq<Row>, col: nat, bookId: Value, i: nat)
    requires i < |rows| && RowMatches(test, rows[i], col, bookId)
    requires forall j :: 0 <= j < i ==> !RowMatches(test, rows[j], col, bookId)
    ensures FirstMatch(test, rows, col, bookId) == Some(i)
  {
  }

  /** _header_index: one pass over the header row, filling the index. */
  method HeaderIndex(header: Row) returns (idx: Index)
    ensures idx == HeaderIndexOf(header)
  {
    ghost var ks := HeaderKeys(header);
    idx := map[];
    var i := 0;
    while i < |header|
      invariant 0 <= i <= |header|
      invariant idx == IndexOfKeys(ks[..i])
    {
      assert ks[..i + 1][..i] == ks[..i];
      var key := HeaderKey(header[i]);
      if key.Some? {
        idx := idx[key.value := i + 1];
      }
      i := i + 1;
    }
    assert ks[..|header|] == ks;
  }

  // ---------- get_by_id ----------

  /** get_by_id: a falsy id gives None without opening the sheet; otherwise
      the record of the first row whose id cell is non-empty and has the same
      trimmed text as the requested id. */
  function GetSpec(s: Sheet, bookId: Value): Result<Option<Record>> {
    if !Truthy(bookId) then Ok(None)
    else
      match OpenIndex(s)
      case Err(e) => Err(e)
      case Ok(idx) =>
        OpenedIndexValid(s);
        match FirstMatch(ByText, s.rows, idx["id"], bookId)
        case None => Ok(None)
        case Some(k) => Ok(Some(RowToDict(s.rows[k], idx)))
  }

  /** What get_by_id returns on a sheet that opens: a record exactly when
      some row's id cell matches, and then the record of the first such row,
      whose id reads back as the requested id. */
  lemma GetOutcome(s: Sheet, bookId: Value)
    requires OpenIndex(s).Ok? && Truthy(bookId)
    ensures GetSpec(s, bookId).Ok?
    ensures var idx := OpenIndex(s).value;
            var col := idx["id"];
            var out := GetSpec(s, bookId).value;
            && (out.Some? <==> exists j :: 0 <= j < |s.rows| && RowMatches(ByText, s.rows[j], col, bookId))
            && (out.Some? ==>
                  var k := FirstMatch(ByText, s.rows, col, bookId).value;
                  && out.value == RowToDict(s.rows[k], idx)
                  && Truthy(out.value["id"])
                  && Strip(PyStr(out.value["id"])) == Strip(PyStr(bookId)))
  {
    OpenedIndexValid(s);
    var idx := OpenIndex(s).value;
    var m := FirstMatch(ByText, s.rows, idx["id"], bookId);
    if m.Some? {
      RowToDictAt(s.rows[m.value], idx, "id");
    }
  }

  // ---------- last ----------

  /** last: n clamped to [1, 200]; the records of sheet rows
      max(2, max_row - n + 1) .. max_row, where max_row counts the header. */
  function LastSpec(s: Sheet, n: int): Result<seq<Record>> {
    var m := Clamp(n, 1, 200);
    match OpenIndex(s)
    case Err(e) => Err(e)
    case Ok(idx) =>
      var maxRow := |s.rows| + 1;
      var start := if maxRow - m + 1 > 2 then maxRow - m + 1 else 2;
      Ok(Records(s.rows, idx)[start - 2..])
  }

  /** last returns the final min(n, data rows) records, in table order. */
  lemma LastResults(s: Sheet, n: int)
    requires OpenIndex(s).Ok?
    ensures LastSpec(s, n).Ok?
    ensures var out := LastSpec(s, n).value;
            var m := Clamp(n, 1, 200);
            var recs := Records(s.rows, OpenIndex(s).value);
            && |out| == (if m < |s.rows| then m else |s.rows|)
            && out == recs[|recs| - |out|..]
  {
  }

  // ---------- find ----------

  /** find's key_to_header: criterion key to canonical column. */
  const FindTable: seq<(string, string)> := [
    ("titulo", "Título"), ("autor", "Autor"), ("editorial", "Editorial"),
    ("ano", "Año"), ("isbn", "ISBN"), ("fila", "Fila"), ("columna", "Columna"),
    ("id", "id")
  ]

  /** The criteria find actually uses: blank ones dropped, the rest trimmed and
      lower-cased. */
  function CleanCriteria(criteria: map<string, string>): (crit: map<string, string>)
    ensures forall k :: k in crit <==> k in criteria && Strip(criteria[k]) != ""
    ensures forall k :: k in crit ==> crit[k] == Lower(Strip(criteria[k]))
  {
    map k | k in criteria && criteria[k] != "" && Strip(criteria[k]) != "" :: Lower(Strip(criteria[k]))
  }

  /** The text a needle is searched in: "" for an empty cell, else the
      lower-cased str() of the cell. */
  function Haystack(v: Value): string {
    if v.Null? then "" else Lower(PyStr(v))
  }

  /** One criterion holds for a record: the key names a searchable column and
      the needle occurs in that column's text. */
  predicate CriterionHolds(rec: Record, k: string, needle: string) {
    match Lookup(FindTable, k)
    case None => false
    case Some(h) => Contains(Haystack(Get(rec, h)), needle)
  }

  predicate MatchesAll(rec: Record, crit: map<string, string>) {
    forall k :: k in crit ==> CriterionHolds(rec, k, crit[k])
  }

  /** The matching records, in table order. */
  function Matching(recs: seq<Record>, crit: map<string, string>): (out: seq<Record>)
    ensures |out| <= |recs|
    ensures forall i :: 0 <= i < |out| ==> out[i] in recs && MatchesAll(out[i], crit)
    decreases |recs|
  {
    if recs == [] then []
    else
      var rest := Matching(recs[..|recs| - 1], crit);
      var last := recs[|recs| - 1];
      if MatchesAll(last, crit) then rest + [last] else rest
  }

  /** Every matching record is kept. */
  lemma {:induction false} MatchingComplete(recs: seq<Record>, crit: map<string, string>)
    ensures forall r :: r in recs && MatchesAll(r, crit) ==> r in Matching(recs, crit)
    decreases |recs|
  {
    if recs != [] {
      MatchingComplete(recs[..|recs| - 1], crit);
      assert recs == recs[..|recs| - 1] + [recs[|recs| - 1]];
    }
  }

  /** Filtering commutes with concatenation: table order is kept. */
  lemma {:induction false} MatchingAppend(a: seq<Record>, b: seq<Record>, crit: map<string, string>)
    ensures Matching(a + b, crit) == Matching(a, crit) + Matching(b, crit)
    decreases |b|
  {
    if b != [] {
      var b' := b[..|b| - 1];
      MatchingAppend(a, b', crit);
      assert (a + b)[..|a + b| - 1] == a + b';
      var last := b[|b| - 1];
      assert (a + b)[|a + b| - 1] == last;
      if MatchesAll(last, crit) {
        assert Matching(a, crit) + (Matching(b', crit) + [last])
            == (Matching(a, crit) + Matching(b', crit)) + [last];
      }
    } else {
      assert a + b == a;
    }
  }

  /** One more record: the filter of the longer prefix. */
  lemma MatchingSnoc(recs: seq<Record>, i: nat, crit: map<string, string>)
    requires i < |recs|
    ensures Matching(recs[..i + 1], crit) ==
              Matching(recs[..i], crit) + if MatchesAll(recs[i], crit) then [recs[i]] else []
  {
    assert recs[..i + 1][..i] == recs[..i];
  }

  /** Once a prefix has `lim` matches, the first `lim` matches of the whole
      are those. */
  lemma MatchingAtLimit(recs: seq<Record>, i: nat, crit: map<string, string>, lim: nat)
    requires i <= |recs| && |Matching(recs[..i], crit)| == lim
    ensures Take(Matching(recs, crit), lim) == Matching(recs[..i], crit)
  {
    MatchingAppend(recs[..i], recs[i..], crit);
    assert recs[..i] + recs[i..] == recs;
  }

  function Take<T>(xs: seq<T>, n: nat): (r: seq<T>)
    ensures |r| <= n && |r| <= |xs|
    ensures r == xs[..|r|]
    ensures |xs| <= n ==> r == xs
  {
    if |xs| <= n then xs else xs[..n]
  }

  /** find: limit clamped to [1, 50]; no usable criterion gives [] without
      opening the sheet; otherwise the first `limit` matching records. */
  function FindSpec(s: Sheet, criteria: map<string, string>, limit: int): Result<seq<Record>> {
    var lim := Clamp(limit, 1, 50);
    var crit := CleanCriteria(criteria);
    if crit == map[] then Ok([])
    else
      match OpenIndex(s)
      case Err(e) => Err(e)
      case Ok(idx) => Ok(Take(Matching(Records(s.rows, idx), crit), lim))
  }

  /** What find returns: at most the clamped limit of records, each a record
      of the table matching every criterion, in table order (a prefix of all
      matches) of length the smaller of the limit and the number of matches;
      fewer than the limit means every match. */
  lemma FindResults(s: Sheet, criteria: map<string, string>, limit: int)
    requires FindSpec(s, criteria, limit).Ok? && CleanCriteria(criteria) != map[]
    ensures var out := FindSpec(s, criteria, limit).value;
            var crit := CleanCriteria(criteria);
            var recs := Records(s.rows, OpenIndex(s).value);
            var all := Matching(recs, crit);
            && |out| == (if |all| < Clamp(limit, 1, 50) then |all| else Clamp(limit, 1, 50))
            && (forall i :: 0 <= i < |out| ==> out[i] in recs && MatchesAll(out[i], crit))
            && out == Matching(recs, crit)[..|out|]
            && (|out| < Clamp(limit, 1, 50) ==> forall r :: r in recs && MatchesAll(r, crit) ==> r in out)
  {
    var crit := CleanCriteria(criteria);
    var recs := Records(s.rows, OpenIndex(s).value);
    MatchingComplete(recs, crit);
  }

  /** A criterion whose key names no searchable column fails every record. */
  lemma MatchingUnknownKey(recs: seq<Record>, crit: map<string, string>, k: string)
    requires k in crit && Lookup(FindTable, k).None?
    ensures Matching(recs, crit) == []
  {
    var m := Matching(recs, crit);
    if m != [] {
      var holds := CriterionHolds(m[0], k, crit[k]);
      assert false;
    }
  }

  /** A criterion key find does not know makes every row fail. */
  lemma FindUnknownKey(s: Sheet, criteria: map<string, string>, limit: int, k: string)
    requires k in criteria && Strip(criteria[k]) != "" && Lookup(FindTable, k).None?
    requires OpenIndex(s).Ok?
    ensures FindSpec(s, criteria, limit) == Ok([])
  {
    MatchingUnknownKey(Records(s.rows, OpenIndex(s).value), CleanCriteria(criteria), k);
  }

  /** Blank criteria only: [] even for a sheet that would not open. */
  lemma FindNoCriteria(s: Sheet, criteria: map<string, string>, limit: int)
    requires forall k :: k in criteria ==> Strip(criteria[k]) == ""
    ensures FindSpec(s, criteria, limit) == Ok([])
  {
    assert CleanCriteria(criteria).Keys == {};
  }

  // ---------- add ----------

  /** add: the new row goes after every existing row and its id is the sheet's
      row count before the append (data rows + 1). */
  function AddSpec(s: Sheet, book: map<string, Value>): (r: Result<(int, Sheet)>) {
    match OpenIndex(s)
    case Err(e) => Err(e)
    case Ok(idx) =>
      AddColumnsKnown(idx);
      if !FitsAddRow(idx) then Err(IndexError)
      else
        var id := |s.rows| + 1;
        Ok((id, Sheet(s.header, s.rows + [AddedRow(idx, id, book)])))
  }

  /** A successful add keeps the header and every existing row, appends one
      row, returns the new row count, and the new row reads back under each
      canonical name as what add stores for it ("" or nothing for the columns
      add leaves out). */
  lemma AddAppends(s: Sheet, book: map<string, Value>)
    requires AddSpec(s, book).Ok?
    ensures var (id, t) := AddSpec(s, book).value;
            var idx := OpenIndex(s).value;
            && t.header == s.header
            && |t.rows| == |s.rows| + 1 && t.rows[..|s.rows|] == s.rows
            && id == |s.rows| + 1
            && forall h :: h in Headers ==>
                 RowToDict(t.rows[|s.rows|], idx)[h] ==
                   if idx[h] <= |Headers| then AddValue(h, id, book) else Null
  {
    var idx := OpenIndex(s).value;
    var (id, t) := AddSpec(s, book).value;
    OpenedIndexValid(s);
    AddColumnsKnown(idx);
    assert t.rows[|s.rows|] == AddedRow(idx, id, book);
    forall h | h in Headers
      ensures RowToDict(t.rows[|s.rows|], idx)[h] ==
                if idx[h] <= |Headers| then AddValue(h, id, book) else Null
    {
      AddedRecord(idx, id, book, h);
    }
  }

  /** On a sheet whose ids are the row positions, add keeps them so. */
  lemma AddKeepsPositionalIds(s: Sheet, book: map<string, Value>)
    requires AddSpec(s, book).Ok?
    requires PositionalIds(s.rows, OpenIndex(s).value["id"])
    ensures PositionalIds(AddSpec(s, book).value.1.rows, OpenIndex(s).value["id"])
  {
    var idx := OpenIndex(s).value;
    OpenedIndexValid(s);
    AddColumnsKnown(idx);
    var id := |s.rows| + 1;
    assert AddSpec(s, book).value.1.rows == s.rows + [AddedRow(idx, id, book)];
    AddedCellNamed(idx, id, book, "id");
    AddedRowAt(idx, id, book, idx["id"]);
  }

  /** An index with every canonical name in its canonical column fits the
      twelve cells add writes. */
  lemma CanonicalIndexFits(idx: Index)
    requires HasAllHeaders(idx)
    requires forall i :: 0 <= i < |Headers| ==> idx[Headers[i]] == i + 1
    ensures HasAddColumns(idx) && FitsAddRow(idx)
  {
    AddColumnsKnown(idx);
    assert idx[Headers[0]] == 1 && idx[Headers[1]] == 2 && idx[Headers[2]] == 3;
    assert idx[Headers[5]] == 6 && idx[Headers[6]] == 7 && idx[Headers[7]] == 8;
    assert idx[Headers[8]] == 9 && idx[Headers[9]] == 10;
  }

  /** On a freshly created sheet the first add succeeds with id 1. */
  lemma AddToFreshSheet(book: map<string, Value>)
    ensures AddSpec(Sheet(CanonicalHeaderRow(), []), book).Ok?
    ensures AddSpec(Sheet(CanonicalHeaderRow(), []), book).value.0 == 1
  {
    CanonicalSheetOpens();
    CanonicalIndexFits(OpenIndex(Sheet(CanonicalHeaderRow(), [])).value);
  }

  // ---------- update_fields ----------

  /** The keys update_fields knows, in the order of its key_to_headers. */
  const UpdateKeys: seq<string> := [
    "titulo", "autor", "procedencia", "categoria", "editorial", "ano",
    "columna", "fila", "isbn", "f_revision", "comentarios"
  ]

  /** key_to_headers: the header names tried for a key, in order; none for a
      key it does not list. */
  function UpdateHeaders(k: string): seq<string> {
    if k == "titulo" then ["Título", "Titulo"]
    else if k == "autor" then ["Autor"]
    else if k == "procedencia" then ["Procedencia"]
    else if k == "categoria" then ["Categoría", "Categoria"]
    else if k == "editorial" then ["Editorial"]
    else if k == "ano" then ["Año", "Ano"]
    else if k == "columna" then ["Columna"]
    else if k == "fila" then ["Fila"]
    else if k == "isbn" then ["ISBN"]
    else if k == "f_revision" then ["F_revisión", "F_revision", "F_revision _", "F_revision->"]
    else if k == "comentarios" then ["Comentarios"]
    else []
  }

  /** The first of `hs` the index knows. */
  function FirstPresent(hs: seq<string>, idx: Index): (h: Option<string>)
    ensures h.Some? ==> h.value in hs && h.value in idx
    ensures h.None? ==> forall i :: 0 <= i < |hs| ==> hs[i] !in idx
    decreases |hs|
  {
    if hs == [] then None
    else if hs[0] in idx then Some(hs[0])
    else FirstPresent(hs[1..], idx)
  }

  /** The column update_fields writes for key `k`, if any. */
  function Target(k: string, idx: Index): (c: Option<nat>) {
    match FirstPresent(UpdateHeaders(k), idx)
    case None => None
    case Some(h) => Some(idx[h])
  }

  /** The canonical column each known key is meant for. */
  function UpdateColumn(k: string): string {
    if k == "titulo" then "Título"
    else if k == "autor" then "Autor"
    else if k == "procedencia" then "Procedencia"
    else if k == "categoria" then "Categoría"
    else if k == "editorial" then "Editorial"
    else if k == "ano" then "Año"
    else if k == "columna" then "Columna"
    else if k == "fila" then "Fila"
    else if k == "isbn" then "ISBN"
    else if k == "f_revision" then "F_revision"
    else "Comentarios"
  }

  lemma UpdateColumnCanonical(k: string)
    ensures UpdateColumn(k) in Headers
  {
  }

  predicate IsIntKey(k: string) {
    k == "fila" || k == "columna" || k == "ano"
  }

  /** The value written for a change: int(v) or None for the three numeric
      keys, str(v) or "" for the others. Only text that is not an integer
      fails, and it fails with ValueError. */
  function Coerce(k: string, v: Value): (r: Result<Value>)
    ensures r.Err? ==> IsIntKey(k) && v.Str? && ParseInt(v.s).None? && r.error == ValueError
    ensures r.Ok? && IsIntKey(k) ==> r.value.Null? || r.value.Int?
    ensures r.Ok? && !IsIntKey(k) ==> r.value.Str?
  {
    if IsIntKey(k) then
      if v.Null? then Ok(Null)
      else
        match PyInt(v)
        case Ok(n) => Ok(Int(n))
        case Err(e) => Err(e)
    else Ok(if v.Null? then Str("") else Str(PyStr(v)))
  }

  /** The column each change goes to: the keys of `changes` that have a
      column under the index, looked up as the loop of update_fields does
      (the writes never change the index). */
  function Targets(idx: Index, changes: map<string, Value>): (cols: map<string, nat>)
    ensures forall k :: k in cols <==> k in changes && Target(k, idx).Some?
    ensures forall k :: k in cols ==> cols[k] == Target(k, idx).value
  {
    map k | k in changes && Target(k, idx).Some? :: Target(k, idx).value
  }

  /** Distinct keys go to distinct columns, all counted from 1. */
  ghost predicate ColumnsApart(cols: map<string, nat>) {
    && (forall k1, k2 :: k1 in cols && k2 in cols && k1 != k2 ==> cols[k1] != cols[k2])
    && (forall k :: k in cols ==> cols[k] >= 1)
  }

  /** The columns written by the keys in `done`. */
  function Written(cols: map<string, nat>, done: set<string>): set<nat> {
    set k | k in done && k in cols :: cols[k]
  }

  /** `row` is `row0` after the changes of the keys in `done`: each such key
      with a column holds its coerced value there, every other column keeps
      its cell, and the row grew only as far as the furthest column written. */
  ghost predicate Applied(cols: map<string, nat>, changes: map<string, Value>, done: set<string>, row0: Row, row: Row) {
    && (forall k :: k in done && k in cols && k in changes ==>
          Coerce(k, changes[k]).Ok? && CellAt(row, cols[k]) == Coerce(k, changes[k]).value)
    && (forall c :: c !in Written(cols, done) ==> CellAt(row, c) == CellAt(row0, c))
    && |row0| <= |row|
    && (forall c :: c in Written(cols, done) ==> c <= |row|)
    && (|row| == |row0| || |row| in Written(cols, done))
  }

  /** Some change that has a column cannot be coerced. */
  ghost predicate Fails(cols: map<string, nat>, changes: map<string, Value>) {
    exists k :: k in cols && k in changes && Coerce(k, changes[k]).Err?
  }

  /** `row` is `row0` with every change of `changes` applied under `idx`. */
  ghost predicate UpdatedOn(idx: Index, changes: map<string, Value>, row0: Row, row: Row) {
    Applied(Targets(idx, changes), changes, changes.Keys, row0, row)
  }

  /** Some change of a key with a column cannot be coerced. */
  ghost predicate UpdateFails(idx: Index, changes: map<string, Value>) {
    Fails(Targets(idx, changes), changes)
  }

  /** Only the eleven listed keys have header names. */
  lemma UpdateHeadersKnown(k: string)
    requires UpdateHeaders(k) != []
    ensures k in UpdateKeys
  {
  }

  // Under a validated index each known key writes the column of its
  // canonical name: the alternative spellings the store also tries are never
  // in the index. One lemma per key keeps each proof small.
  lemma TargetTitulo(idx: Index, k: string)
    requires ValidIndex(idx) && k == "titulo"
    ensures UpdateColumn(k) in idx && Target(k, idx) == Some(idx[UpdateColumn(k)])
  {
    assert UpdateColumn(k) in Headers;
  }
  lemma TargetAutor(idx: Index, k: string)
    requires ValidIndex(idx) && k == "autor"
    ensures UpdateColumn(k) in idx && Target(k, idx) == Some(idx[UpdateColumn(k)])
  {
    assert UpdateColumn(k) in Headers;
  }
  lemma TargetProcedencia(idx: Index, k: string)
    requires ValidIndex(idx) && k == "procedencia"
    ensures UpdateColumn(k) in idx && Target(k, idx) == Some(idx[UpdateColumn(k)])
  {
    assert UpdateColumn(k) in Headers;
  }
  lemma TargetCategoria(idx: Index, k: string)
    requires ValidIndex(idx) && k == "categoria"
    ensures UpdateColumn(k) in idx && Target(k, idx) == Some(idx[UpdateColumn(k)])
  {
    assert UpdateColumn(k) in Headers;
  }
  lemma TargetEditorial(idx: Index, k: string)
    requires ValidIndex(idx) && k == "editorial"
    ensures UpdateColumn(k) in idx && Target(k, idx) == Some(idx[UpdateColumn(k)])
  {
    assert UpdateColumn(k) in Headers;
  }
  lemma TargetAno(idx: Index, k: string)
    requires ValidIndex(idx) && k == "ano"
    ensures UpdateColumn(k) in idx && Target(k, idx) == Some(idx[UpdateColumn(k)])
  {
    assert UpdateColumn(k) in Headers;
  }
  lemma TargetColumna(idx: Index, k: string)
    requires ValidIndex(idx) && k == "columna"
    ensures UpdateColumn(k) in idx && Target(k, idx) == Some(idx[UpdateColumn(k)])
  {
    assert UpdateColumn(k) in Headers;
  }
  lemma TargetFila(idx: Index, k: string)
    requires ValidIndex(idx) && k == "fila"
    ensures UpdateColumn(k) in idx && Target(k, idx) == Some(idx[UpdateColumn(k)])
  {
    assert UpdateColumn(k) in Headers;
  }
  lemma TargetIsbn(idx: Index, k: string)
    requires ValidIndex(idx) && k == "isbn"
    ensures UpdateColumn(k) in idx && Target(k, idx) == Some(idx[UpdateColumn(k)])
  {
    assert UpdateColumn(k) in Headers;
  }
  lemma TargetRevision(idx: Index, k: string)
    requires ValidIndex(idx) && k == "f_revision"
    ensures UpdateColumn(k) in idx && Target(k, idx) == Some(idx[UpdateColumn(k)])
  {
    var hs := UpdateHeaders(k);
    assert hs == ["F_revisión", "F_revision", "F_revision _", "F_revision->"];
    assert hs[1] == UpdateColumn(k) == Headers[10];
    assert hs[0] !in Headers;
    assert FirstPresent(hs, idx) == FirstPresent(hs[1..], idx);
  }
  lemma TargetComentarios(idx: Index, k: string)
    requires ValidIndex(idx) && k == "comentarios"
    ensures UpdateColumn(k) in idx && Target(k, idx) == Some(idx[UpdateColumn(k)])
  {
    assert UpdateColumn(k) in Headers;
  }

  lemma UpdateTargetCanonical(idx: Index, k: string)
    requires ValidIndex(idx) && k in UpdateKeys
    ensures UpdateColumn(k) in idx
    ensures Target(k, idx) == Some(idx[UpdateColumn(k)])
  {
    if k == "titulo" { TargetTitulo(idx, k); }
    else if k == "autor" { TargetAutor(idx, k); }
    else if k == "procedencia" { TargetProcedencia(idx, k); }
    else if k == "categoria" { TargetCategoria(idx, k); }
    else if k == "editorial" { TargetEditorial(idx, k); }
    else if k == "ano" { TargetAno(idx, k); }
    else if k == "columna" { TargetColumna(idx, k); }
    else if k == "fila" { TargetFila(idx, k); }
    else if k == "isbn" { TargetIsbn(idx, k); }
    else if k == "f_revision" { TargetRevision(idx, k); }
    else { TargetComentarios(idx, k); }
  }

  /** The key a header name is listed under. */
  function HeaderOwner(h: string): string {
    if h == "F_revisión" || h == "F_revision" || h == "F_revision _" || h == "F_revision->" then "f_revision"
    else if h == "Título" || h == "Titulo" then "titulo"
    else if h == "Autor" then "autor"
    else if h == "Procedencia" then "procedencia"
    else if h == "Categoría" || h == "Categoria" then "categoria"
    else if h == "Editorial" then "editorial"
    else if h == "Año" || h == "Ano" then "ano"
    else if h == "Columna" then "columna"
    else if h == "Fila" then "fila"
    else if h == "ISBN" then "isbn"
    else if h == "Comentarios" then "comentarios"
    else ""
  }

  // Every header name is listed under one key only; one lemma per key keeps
  // each proof small.
  lemma OwnerTitulo(k: string, h: string) requires k == "titulo" && h in UpdateHeaders(k) ensures HeaderOwner(h) == k { }
  lemma OwnerAutor(k: string, h: string) requires k == "autor" && h in UpdateHeaders(k) ensures HeaderOwner(h) == k { }
  lemma OwnerProcedencia(k: string, h: string) requires k == "procedencia" && h in UpdateHeaders(k) ensures HeaderOwner(h) == k { }
  lemma OwnerCategoria(k: string, h: string) requires k == "categoria" && h in UpdateHeaders(k) ensures HeaderOwner(h) == k { }
  lemma OwnerEditorial(k: string, h: string) requires k == "editorial" && h in UpdateHeaders(k) ensures HeaderOwner(h) == k { }
  lemma OwnerAno(k: string, h: string) requires k == "ano" && h in UpdateHeaders(k) ensures HeaderOwner(h) == k { }
  lemma OwnerColumna(k: string, h: string) requires k == "columna" && h in UpdateHeaders(k) ensures HeaderOwner(h) == k { }
  lemma OwnerFila(k: string, h: string) requires k == "fila" && h in UpdateHeaders(k) ensures HeaderOwner(h) == k { }
  lemma OwnerIsbn(k: string, h: string) requires k == "isbn" && h in UpdateHeaders(k) ensures HeaderOwner(h) == k { }
  lemma OwnerRevision(k: string, h: string) requires k == "f_revision" && h in UpdateHeaders(k) ensures HeaderOwner(h) == k { }
  lemma OwnerComentarios(k: string, h: string) requires k == "comentarios" && h in UpdateHeaders(k) ensures HeaderOwner(h) == k { }

  lemma UpdateHeadersOwner(k: string, h: string)
    requires h in UpdateHeaders(k)
    ensures HeaderOwner(h) == k
  {
    if k == "titulo" { OwnerTitulo(k, h); }
    else if k == "autor" { OwnerAutor(k, h); }
    else if k == "procedencia" { OwnerProcedencia(k, h); }
    else if k == "categoria" { OwnerCategoria(k, h); }
    else if k == "editorial" { OwnerEditorial(k, h); }
    else if k == "ano" { OwnerAno(k, h); }
    else if k == "columna" { OwnerColumna(k, h); }
    else if k == "fila" { OwnerFila(k, h); }
    else if k == "isbn" { OwnerIsbn(k, h); }
    else if k == "f_revision" { OwnerRevision(k, h); }
    else { assert k == "comentarios"; OwnerComentarios(k, h); }
  }

  /** So under an index that keeps names apart no two keys write the same
      column. */
  lemma TargetsDistinct(idx: Index, k1: string, k2: string)
    requires Injective(idx) && k1 != k2
    requires Target(k1, idx).Some? && Target(k2, idx).Some?
    ensures Target(k1, idx).value != Target(k2, idx).value
  {
    var h1 := FirstPresent(UpdateHeaders(k1), idx).value;
    var h2 := FirstPresent(UpdateHeaders(k2), idx).value;
    UpdateHeadersOwner(k1, h1);
    UpdateHeadersOwner(k2, h2);
  }

  /** Under a validated index the changes go to distinct columns. */
  lemma TargetsApart(idx: Index, changes: map<string, Value>)
    requires ValidIndex(idx)
    ensures ColumnsApart(Targets(idx, changes))
  {
    var cols := Targets(idx, changes);
    forall k1, k2 | k1 in cols && k2 in cols && k1 != k2
      ensures cols[k1] != cols[k2]
    {
      TargetsDistinct(idx, k1, k2);
    }
  }

  /** The updated row is determined by the changes alone, whatever order the
      keys are applied in. */
  lemma AppliedUnique(cols: map<string, nat>, changes: map<string, Value>, done: set<string>, row0: Row, r1: Row, r2: Row)
    requires Applied(cols, changes, done, row0, r1) && Applied(cols, changes, done, row0, r2)
    requires done <= changes.Keys
    ensures r1 == r2
  {
    var written := Written(cols, done);
    assert |r1| == |r2|;
    forall i | 0 <= i < |r1|
      ensures r1[i] == r2[i]
    {
      var c := i + 1;
      assert CellAt(r1, c) == r1[i] && CellAt(r2, c) == r2[i];
      if c in written {
        var k :| k in done && k in cols && cols[k] == c;
      }
    }
  }

  /** Nothing applied yet: the row itself. */
  lemma AppliedNone(cols: map<string, nat>, changes: map<string, Value>, row0: Row)
    ensures Applied(cols, changes, {}, row0, row0)
  {
  }

  /** A key without a column changes nothing. */
  lemma AppliedSkip(cols: map<string, nat>, changes: map<string, Value>, done: set<string>, row0: Row, row: Row, k: string)
    requires Applied(cols, changes, done, row0, row)
    requires k !in cols
    ensures Applied(cols, changes, done + {k}, row0, row)
  {
    assert Written(cols, done + {k}) == Written(cols, done);
  }

  /** A key with a column writes its coerced value there and nowhere else. */
  lemma AppliedWrite(cols: map<string, nat>, changes: map<string, Value>, done: set<string>, row0: Row, row: Row, k: string)
    requires ColumnsApart(cols)
    requires Applied(cols, changes, done, row0, row)
    requires k in cols && k in changes && Coerce(k, changes[k]).Ok?
    ensures Applied(cols, changes, done + {k}, row0, SetCell(row, cols[k], Coerce(k, changes[k]).value))
  {
    assert Written(cols, done + {k}) == Written(cols, done) + {cols[k]};
  }

  /** Once every key is applied, no change failed. */
  lemma AppliedAll(cols: map<string, nat>, changes: map<string, Value>, row0: Row, row: Row)
    requires Applied(cols, changes, changes.Keys, row0, row)
    ensures !Fails(cols, changes)
  {
  }

  /** Read through the index, a fully updated row holds each known key's
      coerced value under that key's canonical name ... */
  lemma UpdatedRecordWritten(idx: Index, changes: map<string, Value>, row0: Row, row: Row, k: string)
    requires ValidIndex(idx) && UpdatedOn(idx, changes, row0, row)
    requires k in changes && k in UpdateKeys
    ensures Get(RowToDict(row, idx), UpdateColumn(k)) == Coerce(k, changes[k]).value
  {
    UpdateTargetCanonical(idx, k);
    UpdateColumnCanonical(k);
    RowToDictAt(row, idx, UpdateColumn(k));
  }

  /** ... and every canonical name no key in `changes` is meant for keeps its
      value. */
  lemma UpdatedRecordKept(idx: Index, changes: map<string, Value>, row0: Row, row: Row, h: string)
    requires ValidIndex(idx) && UpdatedOn(idx, changes, row0, row)
    requires h in Headers
    requires forall k :: k in changes && k in UpdateKeys ==> UpdateColumn(k) != h
    ensures RowToDict(row, idx)[h] == RowToDict(row0, idx)[h]
  {
    var cols := Targets(idx, changes);
    RowToDictAt(row, idx, h);
    RowToDictAt(row0, idx, h);
    if idx[h] in Written(cols, changes.Keys) {
      var k :| k in changes.Keys && k in cols && cols[k] == idx[h];
      UpdateHeadersKnown(k);
      UpdateTargetCanonical(idx, k);
      assert false;
    }
  }

  /** update_fields on the sheet `s`, with `r` and `t` the result and the
      sheet after the call: no matching id gives False and no write; a change
      that cannot be coerced raises and nothing is saved; otherwise the first
      matching row, and only it, receives every change with a column. */
  ghost predicate UpdateOutcome(s: Sheet, bookId: Value, changes: map<string, Value>, r: Result<bool>, t: Sheet) {
    match OpenIndex(s)
    case Err(e) => r == Err(e) && t == s
    case Ok(idx) =>
      && "id" in idx
      && match FirstMatch(ByText, s.rows, idx["id"], bookId)
         case None => r == Ok(false) && t == s
         case Some(k) =>
           if UpdateFails(idx, changes) then r == Err(ValueError) && t == s
           else
             && r == Ok(true) && t.header == s.header && |t.rows| == |s.rows|
             && (forall j :: 0 <= j < |s.rows| && j != k ==> t.rows[j] == s.rows[j])
             && UpdatedOn(idx, changes, s.rows[k], t.rows[k])
  }

  /** The outcome of update_fields is determined by the sheet, the id and
      the changes: the order in which the keys are applied does not matter. */
  lemma UpdateDeterministic(s: Sheet, bookId: Value, changes: map<string, Value>,
                            r1: Result<bool>, t1: Sheet, r2: Result<bool>, t2: Sheet)
    requires UpdateOutcome(s, bookId, changes, r1, t1) && UpdateOutcome(s, bookId, changes, r2, t2)
    ensures r1 == r2 && t1 == t2
  {
    if OpenIndex(s).Ok? {
      var idx := OpenIndex(s).value;
      var m := FirstMatch(ByText, s.rows, idx["id"], bookId);
      if m.Some? && !UpdateFails(idx, changes) {
        var k := m.value;
        AppliedUnique(Targets(idx, changes), changes, changes.Keys, s.rows[k], t1.rows[k], t2.rows[k]);
        assert t1.rows == t2.rows;
      }
    }
  }

  // ---------- delete_and_compact ----------

  /** The rows with every id cell rewritten to the row's 1-based position. */
  function Renumbered(rows: seq<Row>, col: nat): (out: seq<Row>)
    requires col >= 1
    ensures |out| == |rows|
    ensures PositionalIds(out, col)
    ensures forall i, c :: 0 <= i < |rows| && c != col ==> CellAt(out[i], c) == CellAt(rows[i], c)
  {
    seq(|rows|, i requires 0 <= i < |rows| => SetCell(rows[i], col, Int(i + 1)))
  }

  /** delete_and_compact: remove the first row whose id equals the requested
      one as integers, then renumber every remaining row. */
  function DeleteSpec(s: Sheet, bookId: Value): Result<(bool, Sheet)> {
    match OpenIndex(s)
    case Err(e) => Err(e)
    case Ok(idx) =>
      OpenedIndexValid(s);
      var col := idx["id"];
      match FirstMatch(ByInt, s.rows, col, bookId)
      case None => Ok((false, s))
      case Some(k) => Ok((true, Sheet(s.header, Renumbered(s.rows[..k] + s.rows[k + 1..], col))))
  }

  /** Removing row k and renumbering: one row fewer, ids 1..n-1, and every
      other cell of the rows before k and (shifted up) after k kept. */
  lemma RemoveAndRenumber(rows: seq<Row>, k: nat, col: nat)
    requires k < |rows| && col >= 1
    ensures var t := Renumbered(rows[..k] + rows[k + 1..], col);
            && |t| == |rows| - 1
            && PositionalIds(t, col)
            && forall i, c :: 0 <= i < |t| && c != col ==>
                 CellAt(t[i], c) == CellAt(rows[if i < k then i else i + 1], c)
  {
    var rest := rows[..k] + rows[k + 1..];
    assert forall i :: 0 <= i < |rest| ==> rest[i] == rows[if i < k then i else i + 1];
  }

  /** A delete on a sheet that opens reports whether some row's id equals
      the requested one as integers; if none does, nothing changes. */
  lemma DeleteFound(s: Sheet, bookId: Value)
    requires OpenIndex(s).Ok?
    ensures DeleteSpec(s, bookId).Ok?
    ensures var col := OpenIndex(s).value["id"];
            var (found, t) := DeleteSpec(s, bookId).value;
            && (found <==> exists j :: 0 <= j < |s.rows| && RowMatches(ByInt, s.rows[j], col, bookId))
            && (!found ==> t == s)
  {
    OpenedIndexValid(s);
  }

  /** When it finds one, exactly the first such row is gone, the others keep
      their order and every cell but the id, and the ids become 1..n-1. */
  lemma DeleteRemoves(s: Sheet, bookId: Value)
    requires OpenIndex(s).Ok? && DeleteSpec(s, bookId).Ok? && DeleteSpec(s, bookId).value.0
    ensures var col := OpenIndex(s).value["id"];
            var t := DeleteSpec(s, bookId).value.1;
            var k := FirstMatch(ByInt, s.rows, col, bookId).value;
            && t.header == s.header
            && |t.rows| == |s.rows| - 1
            && PositionalIds(t.rows, col)
            && forall i, c :: 0 <= i < |t.rows| && c != col ==>
                 CellAt(t.rows[i], c) == CellAt(s.rows[if i < k then i else i + 1], c)
  {
    OpenedIndexValid(s);
    var col := OpenIndex(s).value["id"];
    var k := FirstMatch(ByInt, s.rows, col, bookId).value;
    assert DeleteSpec(s, bookId).value.1 == Sheet(s.header, Renumbered(s.rows[..k] + s.rows[k + 1..], col));
    RemoveAndRenumber(s.rows, k, col);
  }

  /** An id that is not an integer deletes nothing. */
  lemma DeleteNonNumeric(s: Sheet, bookId: Value)
    requires OpenIndex(s).Ok? && PyInt(bookId).Err?
    ensures DeleteSpec(s, bookId) == Ok((false, s))
  {
    OpenedIndexValid(s);
  }

  /** On a sheet whose ids are the row positions, deleting id j removes the
      j-th data row. */
  lemma DeletePositional(rows: seq<Row>, col: nat, j: int)
    requires PositionalIds(rows, col) && 1 <= j <= |rows|
    ensures FirstMatch(ByInt, rows, col, Int(j)) == Some(j - 1)
  {
    FirstMatchAt(ByInt, rows, col, Int(j), j - 1);
  }

  /** ... and looking up id j by text finds that same row. */
  lemma GetPositional(rows: seq<Row>, col: nat, j: int)
    requires PositionalIds(rows, col) && 1 <= j <= |rows|
    ensures FirstMatch(ByText, rows, col, Int(j)) == Some(j - 1)
  {
    IntToStringShape(j);
    forall i | 0 <= i < j - 1
      ensures !RowMatches(ByText, rows[i], col, Int(j))
    {
      IntToStringShape(i + 1);
      IntRoundTrip(i + 1);
      IntRoundTrip(j);
    }
    FirstMatchAt(ByText, rows, col, Int(j), j - 1);
  }

  // ---------- the store ----------

  /** The inner loop of find: every criterion must hold; an unknown key or a
      missing needle stops the check. */
  method CheckCriteria(rec: Record, crit: map<string, string>) returns (ok: bool)
    ensures ok == MatchesAll(rec, crit)
  {
    var keys := crit.Keys;
    while keys != {}
      invariant keys <= crit.Keys
      invariant forall k :: k in crit && k !in keys ==> CriterionHolds(rec, k, crit[k])
      decreases |keys|
    {
      var k :| k in keys;
      var h := Lookup(FindTable, k);
      if h.None? {
        return false;
      }
      var hay := Haystack(Get(rec, h.value));
      if !Contains(hay, crit[k]) {
        return false;
      }
      keys := keys - {k};
    }
    return true;
  }

  /** The row-scanning loop of get_by_id, update_fields and
      delete_and_compact: the first data row whose id cell passes the test. */
  method Locate(test: IdTest, rows: seq<Row>, col: nat, bookId: Value) returns (k: Option<nat>)
    ensures k == FirstMatch(test, rows, col, bookId)
  {
    var i := 0;
    while i < |rows|
      invariant 0 <= i <= |rows|
      invariant forall j :: 0 <= j < i ==> !RowMatches(test, rows[j], col, bookId)
    {
      if IdMatches(test, CellAt(rows[i], col), bookId) {
        FirstMatchAt(test, rows, col, bookId, i);
        return Some(i);
      }
      i := i + 1;
    }
    return None;
  }

  /** find's row loop: keep each record that meets every criterion, stop
      once `lim` are kept. */
  method Search(rows: seq<Row>, idx: Index, crit: map<string, string>, lim: nat) returns (out: seq<Record>)
    requires HasAllHeaders(idx) && lim >= 1
    ensures out == Take(Matching(Records(rows, idx), crit), lim)
  {
    ghost var recs := Records(rows, idx);
    out := [];
    var i := 0;
    while i < |rows|
      invariant 0 <= i <= |rows|
      invariant out == Matching(recs[..i], crit)
      invariant |out| < lim
    {
      var rec := RowToDict(rows[i], idx);
      assert rec == recs[i];
      var ok := CheckCriteria(rec, crit);
      MatchingSnoc(recs, i, crit);
      if ok {
        out := out + [rec];
        if |out| >= lim {
          MatchingAtLimit(recs, i + 1, crit, lim);
          return;
        }
      }
      i := i + 1;
    }
    assert recs[..i] == recs;
  }

  /** last's comprehension: the records of sheet rows start .. max_row. */
  method RecordsFrom(rows: seq<Row>, idx: Index, start: nat) returns (out: seq<Record>)
    requires HasAllHeaders(idx) && 2 <= start <= |rows| + 2
    ensures out == Records(rows, idx)[start - 2..]
  {
    out := [];
    var r := start;
    while r <= |rows| + 1
      invariant start <= r <= |rows| + 2
      invariant out == Records(rows, idx)[start - 2..r - 2]
    {
      out := out + [RowToDict(rows[r - 2], idx)];
      r := r + 1;
    }
  }

  /** One turn of update_fields' loop: a key without a column is skipped;
      otherwise its coerced value is written into its column, or the
      coercion fails. */
  method ApplyOne(cols: map<string, nat>, changes: map<string, Value>, ghost done: set<string>,
                  ghost row0: Row, row: Row, key: string) returns (r: Result<Row>)
    requires ColumnsApart(cols) && key in changes
    requires Applied(cols, changes, done, row0, row)
    ensures r.Err? ==> key in cols && Coerce(key, changes[key]).Err? && r.error == ValueError
    ensures r.Ok? ==> Applied(cols, changes, done + {key}, row0, r.value)
  {
    if key !in cols {
      AppliedSkip(cols, changes, done, row0, row, key);
      return Ok(row);
    }
    var v := Coerce(key, changes[key]);
    if v.Err? {
      return Err(v.error);
    }
    AppliedWrite(cols, changes, done, row0, row, key);
    return Ok(SetCell(row, cols[key], v.value));
  }

  /** update_fields' loop over the changes, in whatever order the keys
      come: each key with a column gets its coerced value written there; a
      value that cannot be coerced aborts. */
  method ApplyChanges(cols: map<string, nat>, changes: map<string, Value>, row0: Row) returns (r: Result<Row>)
    requires ColumnsApart(cols)
    ensures r.Err? <==> Fails(cols, changes)
    ensures r.Err? ==> r.error == ValueError
    ensures r.Ok? ==> Applied(cols, changes, changes.Keys, row0, r.value)
  {
    var row := row0;
    var keys := changes.Keys;
    ghost var done: set<string> := {};
    AppliedNone(cols, changes, row);
    while keys != {}
      invariant keys <= changes.Keys && done == changes.Keys - keys
      invariant Applied(cols, changes, done, row0, row)
      decreases |keys|
    {
        var key :| key in keys;
      var next := ApplyOne(cols, changes, done, row0, row, key);
      if next.Err? {
        return next;
      }
      row := next.value;
      keys := keys - {key};
      done := done + {key};
    }
    AppliedAll(cols, changes, row0, row);
    return Ok(row);
  }

  /** delete_and_compact's second loop: id = position on every row. */
  method Renumber(rest: seq<Row>, col: nat) returns (rows: seq<Row>)
    requires col >= 1
    ensures rows == Renumbered(rest, col)
  {
    rows := rest;
    var i := 0;
    while i < |rows|
      invariant 0 <= i <= |rows| == |rest|
      invariant forall j :: 0 <= j < i ==> rows[j] == SetCell(rest[j], col, Int(j + 1))
      invariant forall j :: i <= j < |rows| ==> rows[j] == rest[j]
    {
      rows := rows[i := SetCell(rows[i], col, Int(i + 1))];
      i := i + 1;
    }
  }

  /** add's row: a twelve-cell list of "" with eight of its cells assigned,
      in the source's order. */
  method BuildAddRow(idx: Index, id: int, book: map<string, Value>) returns (row: Row)
    requires HasAddColumns(idx) && FitsAddRow(idx)
    ensures row == AddedRow(idx, id, book)
  {
    row := seq(|Headers|, _ => Str(""));
    row := row[idx["id"] - 1 := Int(id)];
    row := row[idx["Título"] - 1 := Or(Get(book, "titulo"), Str(""))];
    row := row[idx["Autor"] - 1 := Or(Get(book, "autor"), Str(""))];
    row := row[idx["Editorial"] - 1 := Or(Get(book, "editorial"), Str(""))];
    row := row[idx["Año"] - 1 := Get(book, "ano")];
    row := row[idx["Columna"] - 1 := Get(book, "columna")];
    row := row[idx["Fila"] - 1 := Get(book, "fila")];
    row := row[idx["ISBN"] - 1 := Or(Get(book, "isbn"), Str(""))];
  }

  /** ExcelStore over one workbook, reduced to its named sheet: the header
      row and the data rows. */
  class Store {
    var sheet: Sheet

    /** A store whose workbook does not exist yet: one is written with the
        named sheet holding only the canonical header row. */
    constructor Create()
      ensures sheet == Sheet(CanonicalHeaderRow(), [])
    {
      sheet := Sheet(CanonicalHeaderRow(), []);
    }

    /** A store over an existing workbook. A workbook without the named sheet
        gets one holding only the canonical header row. */
    constructor Load(named: Option<Sheet>)
      ensures named.Some? ==> sheet == named.value
      ensures named.None? ==> sheet == Sheet(CanonicalHeaderRow(), [])
    {
      match named {
        case Some(s) => sheet := s;
        case None => sheet := Sheet(CanonicalHeaderRow(), []);
      }
    }

    /** _open followed by _header_index: the column index of the loaded
        sheet, or the schema error naming the missing canonical columns. */
    method Open() returns (r: Result<Index>)
      ensures r == OpenIndex(sheet)
    {
      var idx := HeaderIndex(sheet.header);
      var missing := MissingHeaders(idx);
      if missing != {} {
        return Err(SchemaError(missing));
      }
      return Ok(idx);
    }

    /** add: append one row and return its id. */
    method Add(book: map<string, Value>) returns (r: Result<int>)
      modifies this
      ensures match AddSpec(old(sheet), book)
              case Err(e) => r == Err(e) && sheet == old(sheet)
              case Ok((id, t)) => r == Ok(id) && sheet == t
    {
      var s := sheet;
      var indexed := Open();
      if indexed.Err? {
        return Err(indexed.error);
      }
      var idx := indexed.value;
      AddColumnsKnown(idx);
      if !FitsAddRow(idx) {
        return Err(IndexError);
      }
      var id := |s.rows| + 1;
      var row := BuildAddRow(idx, id, book);
      sheet := Sheet(s.header, s.rows + [row]);
      return Ok(id);
    }

    /** get_by_id. */
    method GetById(bookId: Value) returns (r: Result<Option<Record>>)
      ensures r == GetSpec(sheet, bookId)
    {
      if !Truthy(bookId) {
        return Ok(None);
      }
      var s := sheet;
      var indexed := Open();
      if indexed.Err? {
        return Err(indexed.error);
      }
      var idx := indexed.value;
      OpenedIndexValid(s);
      var k := Locate(ByText, s.rows, idx["id"], bookId);
      if k.None? {
        return Ok(None);
      }
      return Ok(Some(RowToDict(s.rows[k.value], idx)));
    }

    /** find. */
    method Find(criteria: map<string, string>, limit: int) returns (r: Result<seq<Record>>)
      ensures r == FindSpec(sheet, criteria, limit)
    {
      var lim := Clamp(limit, 1, 50);
      var crit := CleanCriteria(criteria);
      if crit == map[] {
        return Ok([]);
      }
      var s := sheet;
      var indexed := Open();
      if indexed.Err? {
        return Err(indexed.error);
      }
      var out := Search(s.rows, indexed.value, crit, lim);
      return Ok(out);
    }

    /** last. */
    method Last(n: int) returns (r: Result<seq<Record>>)
      ensures r == LastSpec(sheet, n)
    {
      var m := Clamp(n, 1, 200);
      var s := sheet;
      var indexed := Open();
      if indexed.Err? {
        return Err(indexed.error);
      }
      var maxRow := |s.rows| + 1;
      var start := if maxRow - m + 1 > 2 then maxRow - m + 1 else 2;
      var out := RecordsFrom(s.rows, indexed.value, start);
      return Ok(out);
    }

    /** update_fields: locate the row, apply the changes to it, save. */
    method UpdateFields(bookId: Value, changes: map<string, Value>) returns (r: Result<bool>)
      modifies this
      ensures UpdateOutcome(old(sheet), bookId, changes, r, sheet)
      ensures r != Ok(true) ==> sheet == old(sheet)
    {
      var s := sheet;
      var indexed := Open();
      if indexed.Err? {
        return Err(indexed.error);
      }
      var idx := indexed.value;
      OpenedIndexValid(s);
      var target := Locate(ByText, s.rows, idx["id"], bookId);
      if target.None? {
        return Ok(false);
      }
      var k := target.value;
      var cols := Targets(idx, changes);
      TargetsApart(idx, changes);
      var applied := ApplyChanges(cols, changes, s.rows[k]);
      if applied.Err? {
        return Err(applied.error);
      }
      sheet := Sheet(s.header, s.rows[k := applied.value]);
      return Ok(true);
    }

    /** delete_and_compact: locate the row by integer id, delete it,
        renumber the rest, save. */
    method DeleteAndCompact(bookId: Value) returns (r: Result<bool>)
      modifies this
      ensures match DeleteSpec(old(sheet), bookId)
              case Err(e) => r == Err(e) && sheet == old(sheet)
              case Ok((found, t)) => r == Ok(found) && sheet == t
    {
      var s := sheet;
      var indexed := Open();
      if indexed.Err? {
        return Err(indexed.error);
      }
      var idx := indexed.value;
      OpenedIndexValid(s);
      var col := idx["id"];
      var target := Locate(ByInt, s.rows, col, bookId);
      if target.None? {
        return Ok(false);
      }
      var k := target.value;
      var rows := Renumber(s.rows[..k] + s.rows[k + 1..], col);
      sheet := Sheet(s.header, rows);
      return Ok(true);
    }
  }
}
