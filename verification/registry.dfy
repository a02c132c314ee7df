/** The application's records (`myapp/models.py`): the choice lists, the
    corpus, PDF and version rows the file manager, the seeding commands and
    the admin work on, and the rules the model classes apply to one record. */
module Registry {
  import opened Wrappers
  import Strings
  import Dict
  import Json

  const RoleChoices: seq<(string, string)> := [("human", "Usuario"), ("ai", "BecaBot")]

  const CorpusTypes: seq<(string, string)> := [
    ("becas", "Corpus de Becas"),
    ("faqs", "Preguntas Frecuentes"),
    ("general", "Datos Generales"),
    ("custom", "Personalizado")
  ]
  const DefaultCorpusType := "general"

  const DocumentTypes: seq<(string, string)> := [
    ("report", "Reporte"),
    ("guide", "Guía"),
    ("manual", "Manual"),
    ("regulations", "Reglamento"),
    ("form", "Formulario"),
    ("other", "Otro")
  ]
  const DefaultDocumentType := "report"

  const StatusChoices: seq<(string, string)> := [
    ("draft", "Borrador"),
    ("published", "Publicado"),
    ("archived", "Archivado")
  ]
  const DefaultStatus := "draft"

  const JsonCorpusType := "json_corpus"
  const PdfDocumentType := "pdf_document"
  const ContentTypes: seq<(string, string)> := [(JsonCorpusType, "Corpus JSON"), (PdfDocumentType, "Documento PDF")]

  /** Stored files: storage path to content. */
  type Disk = seq<(string, string)>

  /** A `JSONCorpus` or `PDFDocument` row: its id, its data attributes by
      name in declaration order, and the storage path of its file (`""` when
      the file field is empty). */
  datatype Record = Record(id: nat, fields: seq<(string, Json.Json)>, file: string)

  function CorpusFields(name: string, corpusType: string, description: string, version: string,
                        isActive: bool, recordsCount: int, createdBy: string): seq<(string, Json.Json)> {
    [("name", Json.JStr(name)),
     ("corpus_type", Json.JStr(corpusType)),
     ("description", Json.JStr(description)),
     ("version", Json.JStr(version)),
     ("is_active", Json.JBool(isActive)),
     ("records_count", Json.JInt(recordsCount)),
     ("file_size", Json.JInt(0)),
     ("created_by", Json.JStr(createdBy))]
  }

  function PdfFields(title: string, documentType: string, description: string, version: string,
                     status: string, tags: string, isPublic: bool, pageCount: int,
                     createdBy: string): seq<(string, Json.Json)> {
    [("title", Json.JStr(title)),
     ("document_type", Json.JStr(documentType)),
     ("description", Json.JStr(description)),
     ("version", Json.JStr(version)),
     ("status", Json.JStr(status)),
     ("tags", Json.JStr(tags)),
     ("is_public", Json.JBool(isPublic)),
     ("file_size", Json.JInt(0)),
     ("page_count", Json.JInt(pageCount)),
     ("processed_for_vectordb", Json.JBool(false)),
     ("created_by", Json.JStr(createdBy))]
  }

  /** Python truthiness of an attribute value. */
  predicate Truthy(v: Json.Json) {
    match v
    case JNull => false
    case JBool(b) => b
    case JInt(n) => n != 0
    case JStr(s) => s != ""
    case JArr(items) => |items| > 0
    case JObj(fields) => |fields| > 0
  }

  /** `obj.version or default`, as the text stored in a version row. */
  function VersionLabel(r: Record, default: string): (s: string)
    ensures forall v :: Dict.Get(r.fields, "version") == Some(Json.JStr(v)) ==> s == if v == "" then default else v
    ensures Dict.Get(r.fields, "version").None? ==> s == default
  {
    match Dict.Get(r.fields, "version")
    case Some(v) => if Truthy(v) then Json.Str(v) else default
    case None => default
  }

  // ---------------------------------------------------------------------
  // save(): file size synchronisation
  // ---------------------------------------------------------------------

  /** `JSONCorpus.save` / `PDFDocument.save`: when a file is attached its
      size is copied into `file_size`; reading the size of a file that is not
      in storage raises, which the model reports as `Err`. */
  function SyncSize(r: Record, disk: Disk): (out: Result<Record, string>)
    ensures out.Err? <==> r.file != "" && r.file !in Dict.Keys(disk)
    ensures out.Ok? ==> out.value.id == r.id && out.value.file == r.file
    ensures out.Ok? && r.file != "" ==>
      Dict.Get(out.value.fields, "file_size") == Some(Json.JInt(|Dict.Get(disk, r.file).value|))
    ensures out.Ok? && r.file == "" ==> out.value == r
  {
    if r.file == "" then Ok(r)
    else
      match Dict.Get(disk, r.file)
      case None => Err(r.file)
      case Some(content) => Ok(r.(fields := Dict.Put(r.fields, "file_size", Json.JInt(|content|))))
  }

  /** Saving changes no attribute but `file_size`. */
  lemma SyncSizeFrame(r: Record, disk: Disk, k: string)
    requires SyncSize(r, disk).Ok? && k != "file_size"
    ensures Dict.Get(SyncSize(r, disk).value.fields, k) == Dict.Get(r.fields, k)
  {
    if r.file != "" {
      var content := Dict.Get(disk, r.file).value;
      Dict.PutOther(r.fields, "file_size", Json.JInt(|content|), k);
    }
  }

  // ---------------------------------------------------------------------
  // Attribute updates
  // ---------------------------------------------------------------------

  /** `for field, value in update_fields.items(): if hasattr(obj, field):
      setattr(obj, field, value)` over the record's data attributes. */
  function ApplyUpdates(fields: seq<(string, Json.Json)>, updates: seq<(string, Json.Json)>): seq<(string, Json.Json)> {
    if |updates| == 0 then fields
    else
      var last := updates[|updates| - 1];
      var r := ApplyUpdates(fields, updates[..|updates| - 1]);
      if last.0 in Dict.Keys(r) then Dict.Put(r, last.0, last.1) else r
  }

  /** The updates that name an existing attribute. */
  function Known(fields: seq<(string, Json.Json)>, updates: seq<(string, Json.Json)>): (r: seq<(string, Json.Json)>)
    ensures forall k :: k in Dict.Keys(r) <==> k in Dict.Keys(fields) && k in Dict.Keys(updates)
  {
    if |updates| == 0 then []
    else
      var last := updates[|updates| - 1];
      var init := updates[..|updates| - 1];
      assert Dict.Keys(updates) == Dict.Keys(init) + [last.0];
      var r := Known(fields, init);
      if last.0 in Dict.Keys(fields) then
        assert Dict.Keys(r + [last]) == Dict.Keys(r) + [last.0];
        r + [last]
      else r
  }

  /** Updating never adds or removes an attribute; an existing attribute
      named by an update takes the last value given for it; every other
      attribute keeps its value, and names the record lacks are ignored. */
  lemma {:induction false} ApplyUpdatesGet(fields: seq<(string, Json.Json)>, updates: seq<(string, Json.Json)>, k: string)
    ensures Dict.Keys(ApplyUpdates(fields, updates)) == Dict.Keys(fields)
    ensures Dict.Get(ApplyUpdates(fields, updates), k) ==
      if k in Dict.Keys(fields) && k in Dict.Keys(updates) then Some(Dict.LastValue(updates, k))
      else Dict.Get(fields, k)
  {
    if |updates| > 0 {
      var last := updates[|updates| - 1];
      var init := updates[..|updates| - 1];
      assert Dict.Keys(updates) == Dict.Keys(init) + [last.0];
      ApplyUpdatesGet(fields, init, k);
      var r := ApplyUpdates(fields, init);
      if last.0 in Dict.Keys(r) {
        Dict.PutKeys(r, last.0, last.1);
        if last.0 != k {
          Dict.PutOther(r, last.0, last.1, k);
        }
      }
    }
  }

  /** Applying the updates is assigning the known ones and nothing else. */
  lemma {:induction false} ApplyUpdatesKnown(fields: seq<(string, Json.Json)>, updates: seq<(string, Json.Json)>)
    ensures ApplyUpdates(fields, updates) == Dict.PutAll(fields, Known(fields, updates))
  {
    if |updates| > 0 {
      var last := updates[|updates| - 1];
      var init := updates[..|updates| - 1];
      ApplyUpdatesKnown(fields, init);
      ApplyUpdatesGet(fields, init, last.0);
      if last.0 in Dict.Keys(fields) {
        Dict.PutAllSnoc(fields, Known(fields, init), last.0, last.1);
      }
    }
  }

  // ---------------------------------------------------------------------
  // Tags
  // ---------------------------------------------------------------------

  function StripAll(parts: seq<string>): (r: seq<string>)
    ensures |r| == |parts|
    ensures forall i | 0 <= i < |r| :: r[i] == Strings.Strip(parts[i])
  {
    seq(|parts|, i requires 0 <= i < |parts| => Strings.Strip(parts[i]))
  }

  /** `PDFDocument.get_tags_list`: empty or missing tags give no tag;
      otherwise one tag per comma-separated piece, empty pieces included,
      each without surrounding white space. */
  function TagsList(tags: Option<string>): (r: seq<string>)
    ensures tags.None? || tags == Some("") ==> r == []
    ensures tags.Some? && tags.value != "" ==> |r| == Strings.CountChar(tags.value, ',') + 1
    ensures forall i | 0 <= i < |r| :: |r[i]| == 0 || (!Strings.IsSpace(r[i][0]) && !Strings.IsSpace(r[i][|r[i]| - 1]))
  {
    match tags
    case None => []
    case Some(t) =>
      if t == "" then []
      else
        Strings.SplitFromCount(t, ',', "");
        StripAll(Strings.Split(t, ','))
  }

  /** Tags written without white space are split back into pieces that
      join with commas to the original text. */
  lemma TagsRoundTrip(t: string)
    requires t != ""
    requires forall i | 0 <= i < |t| :: !Strings.IsSpace(t[i])
    ensures Strings.Join(",", TagsList(Some(t))) == t
  {
    var parts := Strings.Split(t, ',');
    forall j | 0 <= j < |parts| ensures Strings.Strip(parts[j]) == parts[j] {
      forall k | 0 <= k < |parts[j]| ensures !Strings.IsSpace(parts[j][k]) {
        Strings.SplitFromChars(t, ',', "", j, k);
      }
      Strings.StripNoSpace(parts[j]);
    }
    assert StripAll(parts) == parts;
    Strings.SplitFromJoin(t, ',', "");
  }

  // ---------------------------------------------------------------------
  // records_count
  // ---------------------------------------------------------------------

  /** The rule of the corpus upload and edit views and of the file manager:
      the length of a JSON list, 1 for any other JSON value. */
  function CountRecords(j: Json.Json): (n: nat)
    ensures j.JArr? ==> n == |j.items|
    ensures !j.JArr? ==> n == 1
  {
    match j
    case JArr(items) => |items|
    case _ => 1
  }

  /** The rule of the initial data loader: the length of a JSON list, else
      `len(data.get('data', []))`; `None` where that expression raises (a
      top-level value that is not an object, or a `data` entry without a
      length), which the loader reports as a read error. */
  function PopulateRecordsCount(j: Json.Json): (n: Option<nat>)
    ensures j.JArr? ==> n == Some(|j.items|)
    ensures j.JObj? && Dict.Get(j.fields, "data").None? ==> n == Some(0)
    ensures !j.JArr? && !j.JObj? ==> n.None?
  {
    match j
    case JArr(items) => Some(|items|)
    case JObj(fields) => Json.Len(Dict.Get(fields, "data").GetOr(Json.JArr([])))
    case _ => None
  }

  /** The two rules agree on lists and disagree on every object: the views
      count an object as one record while the loader counts its `data`
      entry, or none when it has no `data` entry. */
  lemma RecordsCountRules(items: seq<Json.Json>, fields: seq<(string, Json.Json)>)
    ensures PopulateRecordsCount(Json.JArr(items)) == Some(CountRecords(Json.JArr(items)))
    ensures CountRecords(Json.JObj(fields)) == 1
    ensures Dict.Get(fields, "data") == Some(Json.JArr([])) ==> PopulateRecordsCount(Json.JObj(fields)) == Some(0)
    ensures PopulateRecordsCount(Json.JObj([("data", Json.JArr([Json.JNull, Json.JNull]))])) == Some(2)
  {
  }

  // ---------------------------------------------------------------------
  // Uniqueness constraints
  // ---------------------------------------------------------------------

  /** `JSONCorpus.name` is unique. */
  predicate UniqueNames(corpora: seq<Record>) {
    forall i, j | 0 <= i < j < |corpora| ::
      Dict.Get(corpora[i].fields, "name") != Dict.Get(corpora[j].fields, "name")
  }

  /** Saving row `i` with attributes `fields` breaks the unique name: some
      other row already carries the name `fields` give. */
  predicate NameClash(rows: seq<Record>, i: nat, fields: seq<(string, Json.Json)>) {
    exists j | 0 <= j < |rows| && j != i :: Dict.Get(rows[j].fields, "name") == Dict.Get(fields, "name")
  }

  /** Overwriting a row of a table with unique names keeps them unique
      exactly when the new name clashes with no other row. */
  lemma ReplaceKeepsUniqueNames(rows: seq<Record>, i: nat, rec: Record)
    requires UniqueNames(rows) && i < |rows|
    ensures UniqueNames(rows[i := rec]) <==> !NameClash(rows, i, rec.fields)
  {
    if NameClash(rows, i, rec.fields) {
      var j :| 0 <= j < |rows| && j != i && Dict.Get(rows[j].fields, "name") == Dict.Get(rec.fields, "name");
      var rows' := rows[i := rec];
      if j < i {
        assert Dict.Get(rows'[j].fields, "name") == Dict.Get(rows'[i].fields, "name");
      } else {
        assert Dict.Get(rows'[i].fields, "name") == Dict.Get(rows'[j].fields, "name");
      }
    }
  }

  // ---------------------------------------------------------------------
  // Lookups and deletion
  // ---------------------------------------------------------------------

  /** `objects.filter(attr=value).first()` in table order. */
  function FirstWith(rows: seq<Record>, attr: string, value: Json.Json): (r: Option<nat>)
    ensures r.Some? ==> r.value < |rows| && Dict.Get(rows[r.value].fields, attr) == Some(value)
    ensures r.None? <==> forall x | x in rows :: Dict.Get(x.fields, attr) != Some(value)
  {
    if |rows| == 0 then None
    else if Dict.Get(rows[0].fields, attr) == Some(value) then Some(0)
    else
      match FirstWith(rows[1..], attr, value)
      case None => assert rows == [rows[0]] + rows[1..]; None
      case Some(i) => Some(i + 1)
  }

  /** `objects.filter(attr=value).first()` on a table ordered newest first
      (`ordering = ['-created_at']`), whose rows are kept in creation order:
      the last matching row. */
  function LastWith(rows: seq<Record>, attr: string, value: Json.Json): (r: Option<nat>)
    ensures r.Some? ==> r.value < |rows| && Dict.Get(rows[r.value].fields, attr) == Some(value)
    ensures r.Some? ==> forall k | r.value < k < |rows| :: Dict.Get(rows[k].fields, attr) != Some(value)
    ensures r.None? <==> forall x | x in rows :: Dict.Get(x.fields, attr) != Some(value)
  {
    if |rows| == 0 then None
    else if Dict.Get(rows[|rows| - 1].fields, attr) == Some(value) then Some(|rows| - 1)
    else
      var init := rows[..|rows| - 1];
      assert rows == init + [rows[|rows| - 1]];
      match LastWith(init, attr, value)
      case None => None
      case Some(i) => Some(i)
  }

  /** With unique names the oldest and the newest row of a name coincide, so
      the table's ordering does not matter for a lookup by name. */
  lemma UniqueFirstIsLast(rows: seq<Record>, value: Json.Json)
    requires UniqueNames(rows)
    ensures FirstWith(rows, "name", value) == LastWith(rows, "name", value)
  {
    var f := FirstWith(rows, "name", value);
    var l := LastWith(rows, "name", value);
    if f.Some? && l.Some? {
      assert Dict.Get(rows[f.value].fields, "name") == Dict.Get(rows[l.value].fields, "name");
      assert !(f.value < l.value);
    }
  }

  /** `obj.delete()`: the row goes, and so does its file when it is stored. */
  function DeleteRow(rows: seq<Record>, disk: Disk, i: nat): (r: (seq<Record>, Disk))
    requires i < |rows|
    ensures |r.0| == |rows| - 1
    ensures r.0 == rows[..i] + rows[i + 1..]
    ensures rows[i].file != "" ==> rows[i].file !in Dict.Keys(r.1)
    ensures forall p | p != rows[i].file :: Dict.Get(r.1, p) == Dict.Get(disk, p)
  {
    var file := rows[i].file;
    if file != "" then
      RemoveFrame(disk, file);
      (rows[..i] + rows[i + 1..], Dict.Remove(disk, file))
    else (rows[..i] + rows[i + 1..], disk)
  }

  lemma RemoveFrame(disk: Disk, file: string)
    ensures file !in Dict.Keys(Dict.Remove(disk, file))
    ensures forall p | p != file :: Dict.Get(Dict.Remove(disk, file), p) == Dict.Get(disk, p)
  {
    Dict.RemoveGet(disk, file, file);
    forall p | p != file ensures Dict.Get(Dict.Remove(disk, file), p) == Dict.Get(disk, p) {
      Dict.RemoveGet(disk, file, p);
    }
  }
}
