/** The catalogue worksheet as values: the header row, the data rows, header
    resolution through the synonym map, rows read as records, and the row
    add appends. */
module Sheets {
  import opened Outcomes
  import opened Text
  import opened PyValues

  /** The twelve canonical column names, in their canonical order. */
  const Headers: seq<string> := [
    "id", "Título", "Autor", "Procedencia", "Categoría",
    "Editorial", "Año", "Columna", "Fila", "ISBN",
    "F_revision", "Comentarios"
  ]

  /** HEADER_MAP, entry by entry and in the source's order: header text as
      found in the sheet (after trimming and lower-casing) to canonical column
      name. Three of the keys contain capitals and so can never be the
      lower-cased text of a cell. */
  const HeaderMap: seq<(string, string)> := [
    ("id", "id"),
    ("título", "Título"),
    ("titulo", "Título"),
    ("autor", "Autor"),
    ("editorial", "Editorial"),
    ("año", "Año"),
    ("ano", "Año"),
    ("columna", "Columna"),
    ("fila", "Fila"),
    ("isbn", "ISBN"),
    ("procedencia", "Procedencia"),
    ("categoría", "Categoría"),
    ("categoria", "Categoría"),
    ("comentarios", "Comentarios"),
    ("comentario", "Comentarios"),
    ("F.revision", "F_revision"),
    ("f.revisión", "F_revision"),
    ("f_revision", "F_revision"),
    ("F_Revisión", "F_revision"),
    ("F.Revisión", "F_revision"),
    ("f revisión", "F_revision"),
    ("fecha revision", "F_revision"),
    ("fecha revisión", "F_revision"),
    ("frevision", "F_revision"),
    ("f_revisión", "F_revision")
  ]

  /** dict.get on a table of entries: the value of the first entry with that key. */
  function Lookup(table: seq<(string, string)>, key: string): (r: Option<string>)
    decreases |table|
  {
    if table == [] then None
    else if table[0].0 == key then Some(table[0].1)
    else Lookup(table[1..], key)
  }

  /** Lookup finds a key exactly when the table has an entry for it, and then
      returns the value of the first such entry. */
  lemma {:induction false} LookupSpec(table: seq<(string, string)>, key: string)
    ensures Lookup(table, key).Some? <==> exists i :: 0 <= i < |table| && table[i].0 == key
    ensures Lookup(table, key).Some? ==>
              exists i :: 0 <= i < |table| && table[i].0 == key && Lookup(table, key).value == table[i].1
                          && forall j :: 0 <= j < i ==> table[j].0 != key
    decreases |table|
  {
    if table != [] && table[0].0 != key {
      LookupSpec(table[1..], key);
      if exists i :: 0 <= i < |table| && table[i].0 == key {
        var i :| 0 <= i < |table| && table[i].0 == key;
        assert table[1..][i - 1].0 == key;
      }
      if Lookup(table, key).Some? {
        var i :| 0 <= i < |table[1..]| && table[1..][i].0 == key && Lookup(table[1..], key).value == table[1..][i].1
                 && forall j :: 0 <= j < i ==> table[1..][j].0 != key;
        assert forall j :: 1 <= j < i + 1 ==> table[j].0 == table[1..][j - 1].0;
      }
    } else if table != [] {
      assert table[0].0 == key;
    }
  }

  /** Lookup of an entry's key when no earlier entry has that key. */
  lemma {:induction false} LookupAt(table: seq<(string, string)>, i: nat)
    requires i < |table|
    requires forall j :: 0 <= j < i ==> table[j].0 != table[i].0
    ensures Lookup(table, table[i].0) == Some(table[i].1)
  {
    if i > 0 {
      LookupAt(table[1..], i - 1);
    }
  }

  /** One worksheet row; cells past its end are empty. */
  type Row = seq<Value>

  /** A data row read out by canonical column name. */
  type Record = map<string, Value>

  /** Canonical column name to 1-based column number. */
  type Index = map<string, nat>

  /** The named worksheet: row 1 is the header, rows 2.. are the data rows. */
  datatype Sheet = Sheet(header: Row, rows: seq<Row>)

  /** The header row a new sheet is created with. */
  function CanonicalHeaderRow(): (r: Row)
    ensures |r| == |Headers|
  {
    seq(|Headers|, i requires 0 <= i < |Headers| => Str(Headers[i]))
  }

  // ---------- cells ----------

  /** ws.cell(r, col).value for a 1-based column. */
  function CellAt(row: Row, col: nat): Value {
    if 1 <= col <= |row| then row[col - 1] else Null
  }

  /** ws.cell(r, col).value = v: the row grows with empty cells when needed. */
  function SetCell(row: Row, col: nat, v: Value): (r: Row)
    requires col >= 1
    ensures CellAt(r, col) == v
    ensures forall c :: c != col ==> CellAt(r, c) == CellAt(row, c)
    ensures col <= |row| ==> |r| == |row|
    ensures col > |row| ==> |r| == col
  {
    if col <= |row| then row[col - 1 := v]
    else row + seq(col - 1 - |row|, _ => Null) + [v]
  }

  // ---------- header resolution ----------

  /** The canonical column a header cell stands for, if any: empty cells and
      texts that are not a synonym are ignored. */
  function HeaderKey(v: Value): Option<string> {
    if v.Null? then None
    else
      Lookup(HeaderMap, Lower(Strip(PyStr(v))))
  }

  /** The resolution of every cell of a header row. */
  function HeaderKeys(header: Row): (ks: seq<Option<string>>)
    ensures |ks| == |header|
  {
    seq(|header|, j requires 0 <= j < |header| => HeaderKey(header[j]))
  }

  /** The column index built from resolved header cells, left to right: a later
      cell that resolves to the same canonical name overwrites an earlier one. */
  function IndexOfKeys(ks: seq<Option<string>>): Index
    decreases |ks|
  {
    if ks == [] then map[]
    else
      var idx := IndexOfKeys(ks[..|ks| - 1]);
      match ks[|ks| - 1]
      case None => idx
      case Some(k) => idx[k := |ks|]
  }

  /** _header_index. */
  function HeaderIndexOf(header: Row): Index {
    IndexOfKeys(HeaderKeys(header))
  }

  /** A canonical name is in the index exactly when some cell resolves to it,
      and it maps to the LAST such column (1-based). */
  lemma {:induction false} IndexOfKeysAt(ks: seq<Option<string>>, k: string)
    ensures k in IndexOfKeys(ks) <==> Some(k) in ks
    ensures k in IndexOfKeys(ks) ==>
              && 1 <= IndexOfKeys(ks)[k] <= |ks|
              && ks[IndexOfKeys(ks)[k] - 1] == Some(k)
              && Some(k) !in ks[IndexOfKeys(ks)[k]..]
    decreases |ks|
  {
    if ks != [] {
      var init := ks[..|ks| - 1];
      IndexOfKeysAt(init, k);
      assert ks == init + [ks[|ks| - 1]];
      if ks[|ks| - 1] != Some(k) && k in IndexOfKeys(init) {
        var c := IndexOfKeys(init)[k];
        assert ks[c..] == init[c..] + [ks[|ks| - 1]];
      }
    }
  }

  /** Distinct names never share a column. */
  lemma IndexOfKeysInjective(ks: seq<Option<string>>, k1: string, k2: string)
    requires k1 in IndexOfKeys(ks) && k2 in IndexOfKeys(ks) && k1 != k2
    ensures IndexOfKeys(ks)[k1] != IndexOfKeys(ks)[k2]
  {
    IndexOfKeysAt(ks, k1);
    IndexOfKeysAt(ks, k2);
  }

  lemma HeaderIndexInjective(header: Row, k1: string, k2: string)
    requires k1 in HeaderIndexOf(header) && k2 in HeaderIndexOf(header) && k1 != k2
    ensures HeaderIndexOf(header)[k1] != HeaderIndexOf(header)[k2]
  {
    IndexOfKeysInjective(HeaderKeys(header), k1, k2);
  }

  lemma HeaderIndexInjectiveAll(header: Row)
    ensures Injective(HeaderIndexOf(header))
  {
    forall k1, k2 | k1 in HeaderIndexOf(header) && k2 in HeaderIndexOf(header) && k1 != k2
      ensures HeaderIndexOf(header)[k1] != HeaderIndexOf(header)[k2]
    {
      HeaderIndexInjective(header, k1, k2);
    }
  }

  /** Every name HEADER_MAP resolves to is a canonical name. */
  lemma HeaderMapTargetsCanonical()
    ensures forall i :: 0 <= i < |HeaderMap| ==> HeaderMap[i].1 in Headers
  {
  }

  /** A header cell only ever resolves to a canonical name. */
  lemma HeaderKeyCanonical(v: Value)
    ensures HeaderKey(v).Some? ==> HeaderKey(v).value in Headers
  {
    if !v.Null? {
      LookupSpec(HeaderMap, Lower(Strip(PyStr(v))));
      HeaderMapTargetsCanonical();
    }
  }

  /** What every operation may rely on once the header row is accepted: all
      canonical names present, nothing else, each at its own column, columns
      counted from 1. */
  ghost predicate ValidIndex(idx: Index) {
    && HasAllHeaders(idx)
    && Injective(idx)
    && (forall k :: k in idx ==> k in Headers && idx[k] >= 1)
  }

  /** _validate_headers: the canonical names missing from the index. */
  function MissingHeaders(idx: Index): (missing: set<string>)
    ensures forall h :: h in missing <==> h in Headers && h !in idx
  {
    set h | h in Headers && h !in idx
  }

  predicate HasAllHeaders(idx: Index) {
    forall h :: h in Headers ==> h in idx
  }

  /** What every store operation does first: resolve the header row and
      refuse the sheet when a canonical column is missing. */
  function OpenIndex(s: Sheet): (r: Result<Index>)
    ensures r.Ok? ==> r.value == HeaderIndexOf(s.header) && HasAllHeaders(r.value)
  {
    var idx := HeaderIndexOf(s.header);
    var missing := MissingHeaders(idx);
    if missing != {} then Err(SchemaError(missing)) else Ok(idx)
  }

  /** Opening fails exactly when some canonical name is not resolved, and the
      error names precisely the unresolved ones. */
  lemma OpenFailsIffMissing(s: Sheet)
    ensures OpenIndex(s).Err? <==> exists h :: h in Headers && h !in HeaderIndexOf(s.header)
    ensures OpenIndex(s).Err? ==>
              OpenIndex(s).error == SchemaError(set h | h in Headers && h !in HeaderIndexOf(s.header))
  {
    var idx := HeaderIndexOf(s.header);
    if exists h :: h in Headers && h !in idx {
      var h :| h in Headers && h !in idx;
      assert h in MissingHeaders(idx);
    }
  }

  /** The index of a sheet that opens is valid. */
  lemma OpenedIndexValid(s: Sheet)
    requires OpenIndex(s).Ok?
    ensures ValidIndex(OpenIndex(s).value)
  {
    var ks := HeaderKeys(s.header);
    var idx := IndexOfKeys(ks);
    HeaderIndexInjectiveAll(s.header);
    HeaderKeysCanonical(s.header);
    forall k | k in idx
      ensures k in Headers && idx[k] >= 1
    {
      IndexEntryCanonical(ks, k);
    }
  }

  /** Each cell of a header row resolves, if at all, to a canonical name. */
  predicate CanonicalKeys(ks: seq<Option<string>>) {
    forall i :: 0 <= i < |ks| && ks[i].Some? ==> ks[i].value in Headers
  }

  lemma HeaderKeysCanonical(header: Row)
    ensures CanonicalKeys(HeaderKeys(header))
  {
    var ks := HeaderKeys(header);
    forall i | 0 <= i < |ks| && ks[i].Some?
      ensures ks[i].value in Headers
    {
      HeaderKeyCanonical(header[i]);
    }
  }

  /** Each entry of an index built from canonical keys is a canonical name at
      a column from 1. */
  lemma IndexEntryCanonical(ks: seq<Option<string>>, k: string)
    requires CanonicalKeys(ks) && k in IndexOfKeys(ks)
    ensures k in Headers && IndexOfKeys(ks)[k] >= 1
  {
    IndexOfKeysAt(ks, k);
    var c := IndexOfKeys(ks)[k];
    assert ks[c - 1] == Some(k);
  }
  /** The canonical names are pairwise distinct. */
  lemma HeadersDistinct()
    ensures forall i, j :: 0 <= i < j < |Headers| ==> Headers[i] != Headers[j]
  {
  }

  /** A header text without surrounding space whose lower-cased form is the
      key of entry `i` (and of no earlier entry) resolves to that entry's name. */
  lemma KeyOfText(text: string, i: nat)
    requires text != [] && !IsSpace(text[0]) && !IsSpace(text[|text| - 1])
    requires i < |HeaderMap| && Lower(text) == HeaderMap[i].0
    requires forall j :: 0 <= j < i ==> HeaderMap[j].0 != HeaderMap[i].0
    ensures HeaderKey(Str(text)) == Some(HeaderMap[i].1)
  {
    StripFixed(text);
    LookupAt(HeaderMap, i);
  }

  // Each header text the canonical row is created with resolves to itself;
  // one lemma per text keeps each proof small.
  lemma KeyId(t: string) requires t == "id" ensures HeaderKey(Str(t)) == Some(t) { KeyOfText(t, 0); }
  lemma KeyTitulo(t: string) requires t == "Título" ensures HeaderKey(Str(t)) == Some(t) { KeyOfText(t, 1); }
  lemma KeyAutor(t: string) requires t == "Autor" ensures HeaderKey(Str(t)) == Some(t) { KeyOfText(t, 3); }
  lemma KeyProcedencia(t: string) requires t == "Procedencia" ensures HeaderKey(Str(t)) == Some(t) { KeyOfText(t, 10); }
  lemma KeyCategoria(t: string) requires t == "Categoría" ensures HeaderKey(Str(t)) == Some(t) { KeyOfText(t, 11); }
  lemma KeyEditorial(t: string) requires t == "Editorial" ensures HeaderKey(Str(t)) == Some(t) { KeyOfText(t, 4); }
  lemma KeyAno(t: string) requires t == "Año" ensures HeaderKey(Str(t)) == Some(t) { KeyOfText(t, 5); }
  lemma KeyColumna(t: string) requires t == "Columna" ensures HeaderKey(Str(t)) == Some(t) { KeyOfText(t, 7); }
  lemma KeyFila(t: string) requires t == "Fila" ensures HeaderKey(Str(t)) == Some(t) { KeyOfText(t, 8); }
  lemma KeyIsbn(t: string) requires t == "ISBN" ensures HeaderKey(Str(t)) == Some(t) { KeyOfText(t, 9); }
  lemma KeyRevision(t: string) requires t == "F_revision" ensures HeaderKey(Str(t)) == Some(t) { KeyOfText(t, 17); }
  lemma KeyComentarios(t: string) requires t == "Comentarios" ensures HeaderKey(Str(t)) == Some(t) { KeyOfText(t, 13); }

  lemma CanonicalHeaderKey(i: nat)
    requires i < |Headers|
    ensures HeaderKey(Str(Headers[i])) == Some(Headers[i])
  {
    if i == 0 { KeyId(Headers[i]); }
    else if i == 1 { KeyTitulo(Headers[i]); }
    else if i == 2 { KeyAutor(Headers[i]); }
    else if i == 3 { KeyProcedencia(Headers[i]); }
    else if i == 4 { KeyCategoria(Headers[i]); }
    else if i == 5 { KeyEditorial(Headers[i]); }
    else if i == 6 { KeyAno(Headers[i]); }
    else if i == 7 { KeyColumna(Headers[i]); }
    else if i == 8 { KeyFila(Headers[i]); }
    else if i == 9 { KeyIsbn(Headers[i]); }
    else if i == 10 { KeyRevision(Headers[i]); }
    else { KeyComentarios(Headers[i]); }
  }

  /** A freshly created sheet opens, with the canonical names in columns 1..12. */
  lemma CanonicalSheetOpens()
    ensures OpenIndex(Sheet(CanonicalHeaderRow(), [])).Ok?
    ensures forall i :: 0 <= i < |Headers| ==> HeaderIndexOf(CanonicalHeaderRow())[Headers[i]] == i + 1
  {
    var row := CanonicalHeaderRow();
    var ks := HeaderKeys(row);
    HeadersDistinct();
    forall i | 0 <= i < |Headers|
      ensures Headers[i] in HeaderIndexOf(row) && HeaderIndexOf(row)[Headers[i]] == i + 1
    {
      IndexOfKeysAt(ks, Headers[i]);
      CanonicalHeaderKey(i);
      assert ks[i] == Some(Headers[i]);
      var c := HeaderIndexOf(row)[Headers[i]];
      CanonicalHeaderKey(c - 1);
      assert ks[c - 1] == Some(Headers[c - 1]);
    }
  }

  // ---------- rows as records ----------

  /** _row_to_dict: the canonical columns of one row. */
  function RowToDict(row: Row, idx: Index): (rec: Record)
    requires HasAllHeaders(idx)
    ensures rec.Keys == set h | h in Headers
  {
    map h | h in Headers :: CellAt(row, idx[h])
  }

  lemma RowToDictAt(row: Row, idx: Index, h: string)
    requires HasAllHeaders(idx) && h in Headers
    ensures RowToDict(row, idx)[h] == CellAt(row, idx[h])
  {
  }

  function Records(rows: seq<Row>, idx: Index): (recs: seq<Record>)
    requires HasAllHeaders(idx)
    ensures |recs| == |rows|
    ensures forall i :: 0 <= i < |rows| ==> recs[i] == RowToDict(rows[i], idx)
  {
    seq(|rows|, i requires 0 <= i < |rows| => RowToDict(rows[i], idx))
  }

  /** Every data row's id cell holds its 1-based position among the data rows
      (sheet row number - 1). */
  ghost predicate PositionalIds(rows: seq<Row>, col: nat) {
    forall i :: 0 <= i < |rows| ==> CellAt(rows[i], col) == Int(i + 1)
  }

  // ---------- add ----------

  /** The index knows every column add writes. */
  predicate HasAddColumns(idx: Index) {
    && "id" in idx && "Título" in idx && "Autor" in idx && "Editorial" in idx
    && "Año" in idx && "Columna" in idx && "Fila" in idx && "ISBN" in idx
  }

  /** The columns add writes are canonical, so a validated index knows them. */
  lemma AddColumnsKnown(idx: Index)
    requires HasAllHeaders(idx)
    ensures HasAddColumns(idx)
  {
    assert Headers[0] == "id" && Headers[1] == "Título" && Headers[2] == "Autor";
    assert Headers[5] == "Editorial" && Headers[6] == "Año" && Headers[7] == "Columna";
    assert Headers[8] == "Fila" && Headers[9] == "ISBN";
  }

  /** add indexes a twelve-element list by column: a written column past the
      twelfth raises IndexError. */
  predicate FitsAddRow(idx: Index)
    requires HasAddColumns(idx)
  {
    && idx["id"] <= |Headers| && idx["Título"] <= |Headers| && idx["Autor"] <= |Headers|
    && idx["Editorial"] <= |Headers| && idx["Año"] <= |Headers| && idx["Columna"] <= |Headers|
    && idx["Fila"] <= |Headers| && idx["ISBN"] <= |Headers|
    && idx["id"] >= 1 && idx["Título"] >= 1 && idx["Autor"] >= 1 && idx["Editorial"] >= 1
    && idx["Año"] >= 1 && idx["Columna"] >= 1 && idx["Fila"] >= 1 && idx["ISBN"] >= 1
  }

  /** The cell add writes into column `c` (1-based) of the new row. */
  function AddedCell(idx: Index, id: int, book: map<string, Value>, c: nat): Value
    requires HasAddColumns(idx)
  {
    if idx["ISBN"] == c then Or(Get(book, "isbn"), Str(""))
    else if idx["Fila"] == c then Get(book, "fila")
    else if idx["Columna"] == c then Get(book, "columna")
    else if idx["Año"] == c then Get(book, "ano")
    else if idx["Editorial"] == c then Or(Get(book, "editorial"), Str(""))
    else if idx["Autor"] == c then Or(Get(book, "autor"), Str(""))
    else if idx["Título"] == c then Or(Get(book, "titulo"), Str(""))
    else if idx["id"] == c then Int(id)
    else Str("")
  }

  /** The twelve-cell row add appends. */
  function AddedRow(idx: Index, id: int, book: map<string, Value>): (row: Row)
    requires HasAddColumns(idx) && FitsAddRow(idx)
    ensures |row| == |Headers|
  {
    seq(|Headers|, _ => Str(""))
      [idx["id"] - 1 := Int(id)]
      [idx["Título"] - 1 := Or(Get(book, "titulo"), Str(""))]
      [idx["Autor"] - 1 := Or(Get(book, "autor"), Str(""))]
      [idx["Editorial"] - 1 := Or(Get(book, "editorial"), Str(""))]
      [idx["Año"] - 1 := Get(book, "ano")]
      [idx["Columna"] - 1 := Get(book, "columna")]
      [idx["Fila"] - 1 := Get(book, "fila")]
      [idx["ISBN"] - 1 := Or(Get(book, "isbn"), Str(""))]
  }

  /** Distinct names sit in distinct columns. */
  ghost predicate Injective(idx: Index) {
    forall k1, k2 :: k1 in idx && k2 in idx && k1 != k2 ==> idx[k1] != idx[k2]
  }

  /** What add stores under each canonical name. */
  function AddValue(h: string, id: int, book: map<string, Value>): Value {
    if h == "id" then Int(id)
    else if h == "Título" then Or(Get(book, "titulo"), Str(""))
    else if h == "Autor" then Or(Get(book, "autor"), Str(""))
    else if h == "Editorial" then Or(Get(book, "editorial"), Str(""))
    else if h == "Año" then Get(book, "ano")
    else if h == "Columna" then Get(book, "columna")
    else if h == "Fila" then Get(book, "fila")
    else if h == "ISBN" then Or(Get(book, "isbn"), Str(""))
    else Str("")
  }

  /** Under an index that keeps names apart, the column-wise cell add writes
      at the column of `h` is what add stores under `h`. */
  lemma AddedCellNamed(idx: Index, id: int, book: map<string, Value>, h: string)
    requires Injective(idx) && HasAddColumns(idx) && h in idx
    ensures AddedCell(idx, id, book, idx[h]) == AddValue(h, id, book)
  {
    var c := idx[h];
    if h != "ISBN" {
      assert idx["ISBN"] != c;
      if h != "Fila" {
        assert idx["Fila"] != c;
        if h != "Columna" {
          assert idx["Columna"] != c;
          if h != "Año" {
            assert idx["Año"] != c;
            if h != "Editorial" {
              assert idx["Editorial"] != c;
              if h != "Autor" {
                assert idx["Autor"] != c;
                if h != "Título" {
                  assert idx["Título"] != c;
                }
              }
            }
          }
        }
      }
    }
  }

  lemma AddedRowAt(idx: Index, id: int, book: map<string, Value>, c: nat)
    requires HasAddColumns(idx) && FitsAddRow(idx)
    ensures CellAt(AddedRow(idx, id, book), c) ==
              if 1 <= c <= |Headers| then AddedCell(idx, id, book, c) else Null
  {
    if 1 <= c <= |Headers| {
      var j := c - 1;
      var r1 := seq(|Headers|, _ => Str(""))[idx["id"] - 1 := Int(id)];
      var r2 := r1[idx["Título"] - 1 := Or(Get(book, "titulo"), Str(""))];
      var r3 := r2[idx["Autor"] - 1 := Or(Get(book, "autor"), Str(""))];
      var r4 := r3[idx["Editorial"] - 1 := Or(Get(book, "editorial"), Str(""))];
      var r5 := r4[idx["Año"] - 1 := Get(book, "ano")];
      var r6 := r5[idx["Columna"] - 1 := Get(book, "columna")];
      var r7 := r6[idx["Fila"] - 1 := Get(book, "fila")];
      var r8 := r7[idx["ISBN"] - 1 := Or(Get(book, "isbn"), Str(""))];
      assert AddedRow(idx, id, book) == r8;
      assert r1[j] == if idx["id"] == c then Int(id) else Str("");
    }
  }

  /** Read back through any index that keeps names apart, the appended row
      holds under each canonical name what add stores for it: the id, the
      seven book fields (text fields defaulting to "", year, column and row to
      None) and "" for provenance, category, review date and comments, or
      nothing at all when the column lies past the twelve cells written. */
  lemma AddedRecord(idx: Index, id: int, book: map<string, Value>, h: string)
    requires HasAllHeaders(idx) && Injective(idx) && HasAddColumns(idx) && FitsAddRow(idx)
    requires h in Headers
    ensures RowToDict(AddedRow(idx, id, book), idx)[h] ==
              if 1 <= idx[h] <= |Headers| then AddValue(h, id, book) else Null
  {
    AddedCellNamed(idx, id, book, h);
    RowToDictAt(AddedRow(idx, id, book), idx, h);
    AddedRowAt(idx, id, book, idx[h]);
  }
}
