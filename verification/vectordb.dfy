/** Building the retrieval corpus: rendering the scraped scholarship records
    into passages, collecting PDF pages, and the decisions that lead to
    loading, building or giving up on the vector index. Embeddings, the text
    splitter and the index library are parameters. */
module VectorDb {
  import opened Wrappers
  import Strings
  import Dict
  import Json
  import Passages

  const DefaultJsonPath := "knowledge_base/corpus_utpl.json"
  const DocsDir := "docs"
  const PersistDir := "Vector_DB - Documents"
  /** Metadata `source` of every passage rendered from the corpus. */
  const CorpusSource := "corpus_utpl.json"

  /** Configuration of the recursive text splitter. */
  const ChunkSize: nat := 2000
  const ChunkOverlap: nat := 300
  const ChunkSeparators: seq<string> := ["\n\n", "\nTÍTULO DE LA BECA:", "\n", " ", ""]

  const DefaultTitulo := "Beca sin título"
  const DefaultNivel := "General"

  /** Sixteen spaces: the indentation inside the passage template. */
  const Indent := "                "

  // ---------------------------------------------------------------------
  // Rendering one record

  /** `", ".join(v)`: a list must hold strings only; a string joins its
      characters and an object its keys; anything else raises (`None`). */
  function JoinTags(v: Json.Json): (r: Option<string>)
    ensures v.JStr? || v.JObj? ==> r.Some?
    ensures v.JNull? || v.JBool? || v.JInt? ==> r.None?
    ensures v.JArr? ==> (r.Some? <==> forall i | 0 <= i < |v.items| :: v.items[i].JStr?)
  {
    match v
    case JArr(items) =>
      if forall i | 0 <= i < |items| :: items[i].JStr? then
        Some(Strings.Join(", ", seq(|items|, i requires 0 <= i < |items| && items[i].JStr? => items[i].s)))
      else None
    case JStr(s) => Some(Strings.Join(", ", seq(|s|, i requires 0 <= i < |s| => [s[i]])))
    case JObj(fields) => Some(Strings.Join(", ", Dict.Keys(fields)))
    case _ => None
  }

  /** A list of strings joins to the strings separated by ", ". */
  lemma JoinTagsStrings(tags: seq<string>)
    ensures JoinTags(Json.JArr(seq(|tags|, i requires 0 <= i < |tags| => Json.JStr(tags[i]))))
      == Some(Strings.Join(", ", tags))
  {
    var items := seq(|tags|, i requires 0 <= i < |tags| => Json.JStr(tags[i]));
    var strs := seq(|items|, i requires 0 <= i < |items| && items[i].JStr? => items[i].s);
    assert strs == tags;
  }

  /** `str(v).replace('\n', ' ').strip()` */
  function CleanValue(v: Json.Json): (r: string)
    ensures '\n' !in r
    ensures |r| > 0 ==> !Strings.IsSpace(r[0]) && !Strings.IsSpace(r[|r| - 1])
  {
    var text := Json.Str(v);
    var flat := Strings.ReplaceChar(text, '\n', ' ');
    assert forall i | 0 <= i < |flat| :: flat[i] != '\n';
    Strings.Strip(flat)
  }

  function ContentLine(key: string, v: Json.Json): string {
    "- " + key + ": " + CleanValue(v) + "\n"
  }

  function ContentLines(fields: seq<(string, Json.Json)>): string {
    if |fields| == 0 then ""
    else ContentLine(fields[0].0, fields[0].1) + ContentLines(fields[1..])
  }

  /** The details block: one line per entry of an object, `str` otherwise. */
  function Contenido(raw: Json.Json): string {
    match raw
    case JObj(fields) => ContentLines(fields)
    case _ => Json.Str(raw)
  }

  /** The details block has exactly one line per entry of an object whose
      keys are single-line. */
  lemma {:induction false} ContenidoLines(fields: seq<(string, Json.Json)>)
    requires forall i | 0 <= i < |fields| :: '\n' !in fields[i].0
    ensures Strings.CountChar(Contenido(Json.JObj(fields)), '\n') == |fields|
  {
    if |fields| > 0 {
      ContenidoLines(fields[1..]);
      ContentLineCount(fields[0].0, fields[0].1);
      CountCharAppend(ContentLine(fields[0].0, fields[0].1), ContentLines(fields[1..]), '\n');
    }
  }

  lemma ContentLineCount(key: string, v: Json.Json)
    requires '\n' !in key
    ensures Strings.CountChar(ContentLine(key, v), '\n') == 1
  {
    var cv := CleanValue(v);
    CountCharAppend("- " + key + ": " + cv, "\n", '\n');
    CountCharAppend("- " + key + ": ", cv, '\n');
    CountCharAbsent(cv, '\n');
    CountCharAppend("- " + key, ": ", '\n');
    CountCharAppend("- ", key, '\n');
    CountCharAbsent(key, '\n');
  }

  lemma {:induction false} CountCharAppend(a: string, b: string, c: char)
    ensures Strings.CountChar(a + b, c) == Strings.CountChar(a, c) + Strings.CountChar(b, c)
  {
    if |a| > 0 {
      assert (a + b)[1..] == a[1..] + b;
      CountCharAppend(a[1..], b, c);
    } else {
      assert a + b == b;
    }
  }

  lemma {:induction false} CountCharAbsent(s: string, c: char)
    requires c !in s
    ensures Strings.CountChar(s, c) == 0
  {
    if |s| > 0 {
      assert c !in s[1..];
      CountCharAbsent(s[1..], c);
    }
  }

  const TitleLabel := "TÍTULO DE LA BECA: "

  /** The passage text of one record. */
  function PageContent(titulo: string, nivel: string, tipos: string, mods: string,
                       url: string, contenido: string): (r: string)
    ensures Strings.StartsWith(r, "\n" + Indent + TitleLabel + titulo + "\n")
    ensures Strings.EndsWith(r, contenido + "\n" + Indent)
  {
    var head := "\n" + Indent + TitleLabel + titulo + "\n";
    var tail := contenido + "\n" + Indent;
    var middle := Indent + "NIVEL ACADÉMICO: " + nivel + "\n"
      + Indent + "TIPO: " + tipos + "\n"
      + Indent + "MODALIDAD: " + mods + "\n"
      + Indent + "ENLACE: " + url + "\n\n"
      + Indent + "DETALLES, REQUISITOS Y BENEFICIOS:\n"
      + Indent;
    var r := head + middle + tail;
    assert r[..|head|] == head;
    assert r[|r| - |tail|..] == tail;
    r
  }

  /** One record as a passage; `None` where the source raises (the record is
      not an object, or its tags cannot be joined). */
  function RenderRecord(item: Json.Json): Option<Passages.Doc>
  {
    if !item.JObj? then None
    else
      var titulo := Dict.Get(item.fields, "titulo").GetOr(Json.JStr(DefaultTitulo));
      var url := Dict.Get(item.fields, "url").GetOr(Json.JStr(""));
      var nivel := Dict.Get(item.fields, "nivel").GetOr(Json.JStr(DefaultNivel));
      var tipos := JoinTags(Dict.Get(item.fields, "tipos").GetOr(Json.JArr([])));
      var mods := JoinTags(Dict.Get(item.fields, "modalidades").GetOr(Json.JArr([])));
      if tipos.None? || mods.None? then None
      else
        var contenido := Contenido(Dict.Get(item.fields, "contenido").GetOr(Json.JObj([])));
        var content := PageContent(Json.Str(titulo), Json.Str(nivel), tipos.value, mods.value,
                                   Json.Str(url), contenido);
        Some(Passages.Doc(content, Passages.Meta(Some(CorpusSource), None, Some(titulo),
                                                 Some(url), Some(nivel), Some(tipos.value))))
  }

  /** A record renders exactly when it is an object whose tags can be
      joined; the passage is tagged with the corpus source, carries the
      record's title, link and level (or their defaults) and opens with the
      title line. */
  lemma RenderRecordSpec(item: Json.Json)
    ensures RenderRecord(item).Some? <==>
      (item.JObj?
       && JoinTags(Dict.Get(item.fields, "tipos").GetOr(Json.JArr([]))).Some?
       && JoinTags(Dict.Get(item.fields, "modalidades").GetOr(Json.JArr([]))).Some?)
    ensures RenderRecord(item).Some? ==>
      var titulo := Dict.Get(item.fields, "titulo").GetOr(Json.JStr(DefaultTitulo));
      && RenderRecord(item).value.meta.source == Some(CorpusSource)
      && RenderRecord(item).value.meta.page.None?
      && RenderRecord(item).value.meta.titulo == Some(titulo)
      && RenderRecord(item).value.meta.url == Some(Dict.Get(item.fields, "url").GetOr(Json.JStr("")))
      && RenderRecord(item).value.meta.nivel == Some(Dict.Get(item.fields, "nivel").GetOr(Json.JStr(DefaultNivel)))
      && Strings.StartsWith(RenderRecord(item).value.content, "\n" + Indent + TitleLabel + Json.Str(titulo) + "\n")
  {
  }

  /** A record without any of the optional keys renders with the defaults:
      no title, empty link, level "General", no types or modalities and an
      empty details block. */
  lemma RenderEmptyRecord()
    ensures RenderRecord(Json.JObj([])).Some?
    ensures RenderRecord(Json.JObj([])).value.content ==
      PageContent(DefaultTitulo, DefaultNivel, "", "", "", "")
    ensures RenderRecord(Json.JObj([])).value.meta.tipo == Some("")
  {
  }

  // ---------------------------------------------------------------------
  // Whole corpus file

  /** The loop over the records: it stops at the first record that raises,
      keeping the passages built so far. */
  function RenderPrefix(items: seq<Json.Json>): (r: seq<Passages.Doc>)
    ensures |r| <= |items|
    ensures forall i | 0 <= i < |r| :: RenderRecord(items[i]) == Some(r[i])
    ensures |r| < |items| ==> RenderRecord(items[|r|]).None?
  {
    MapWhileSome(items, RenderRecord)
  }

  /** `extract_json_text`. The file is `None` when it does not exist, and
      otherwise the outcome of parsing it. */
  function ExtractJsonText(file: Option<Result<Json.Json, string>>): (r: seq<Passages.Doc>)
    ensures file.None? || file.value.Err? ==> r == []
    ensures r != [] ==> file.Some? && file.value.Ok? && file.value.value.JArr?
    ensures forall i | 0 <= i < |r| :: r[i].meta.source == Some(CorpusSource)
    ensures file.Some? && file.value.Ok? && file.value.value.JArr? ==>
      var items := file.value.value.items;
      && |r| <= |items|
      && (forall i | 0 <= i < |r| :: RenderRecord(items[i]) == Some(r[i]))
      && (|r| < |items| ==> RenderRecord(items[|r|]).None?)
  {
    match file
    case None => []
    case Some(Err(_)) => []
    case Some(Ok(data)) =>
      match data
      case JArr(items) => RenderPrefix(items)
      // Iterating a string or an object yields strings, whose `.get`
      // raises at once; `len` of anything else raises before the loop.
      case _ => []
  }

  /** A corpus whose records all render gives exactly one passage per record,
      in order. */
  lemma JsonOnePerRecord(items: seq<Json.Json>)
    requires forall i | 0 <= i < |items| :: RenderRecord(items[i]).Some?
    ensures |ExtractJsonText(Some(Ok(Json.JArr(items))))| == |items|
    ensures forall i | 0 <= i < |items| ::
      ExtractJsonText(Some(Ok(Json.JArr(items))))[i] == RenderRecord(items[i]).value
  {
  }

  // ---------------------------------------------------------------------
  // PDF files

  /** The passages of every listed PDF, in list order. `load` yields the pages
      of the file at a path, or `None` when reading it raises. */
  function PdfPassages(names: seq<string>, load: string -> Option<seq<Passages.Doc>>): seq<Passages.Doc> {
    if |names| == 0 then []
    else
      var last := load(Strings.PathJoin(DocsDir, names[|names| - 1])).GetOr([]);
      PdfPassages(names[..|names| - 1], load) + last
  }

  /** Reading distributes over the list of names: an unreadable file adds
      nothing and the others are still read. */
  lemma {:induction false} PdfPassagesAppend(a: seq<string>, b: seq<string>,
                                             load: string -> Option<seq<Passages.Doc>>)
    ensures PdfPassages(a + b, load) == PdfPassages(a, load) + PdfPassages(b, load)
  {
    if |b| == 0 {
      assert a + b == a;
    } else {
      var ab := a + b;
      assert ab[..|ab| - 1] == a + b[..|b| - 1];
      assert ab[|ab| - 1] == b[|b| - 1];
      PdfPassagesAppend(a, b[..|b| - 1], load);
    }
  }

  /** `extract_pdf_text` */
  method ExtractPdfText(names: seq<string>, dirExists: bool,
                        load: string -> Option<seq<Passages.Doc>>) returns (docs: seq<Passages.Doc>)
    ensures !dirExists ==> docs == []
    ensures dirExists ==> docs == PdfPassages(names, load)
  {
    docs := [];
    if !dirExists {
      return;
    }
    var i := 0;
    while i < |names|
      invariant 0 <= i <= |names|
      invariant docs == PdfPassages(names[..i], load)
    {
      assert names[..i + 1][..i] == names[..i];
      var pages := load(Strings.PathJoin(DocsDir, names[i]));
      if pages.Some? {
        docs := docs + pages.value;
      }
      i := i + 1;
    }
    assert names[..i] == names;
  }

  /** An unreadable file contributes nothing. */
  lemma UnreadableSkipped(a: seq<string>, name: string, b: seq<string>,
                          load: string -> Option<seq<Passages.Doc>>)
    requires load(Strings.PathJoin(DocsDir, name)).None?
    ensures PdfPassages(a + [name] + b, load) == PdfPassages(a + b, load)
  {
    PdfPassagesAppend(a + [name], b, load);
    PdfPassagesAppend(a, b, load);
    assert PdfPassages(a + [name], load) == PdfPassages(a, load) + [];
  }

  // ---------------------------------------------------------------------
  // Index decisions

  /** `create_vectorstore`: PDF passages first, then the corpus passages; no
      index without passages; `split` is the text splitter and `buildOk`
      whether building the index succeeds. */
  function CreateVectorstore(pdfDocs: seq<Passages.Doc>, jsonDocs: seq<Passages.Doc>,
                             split: seq<Passages.Doc> -> seq<Passages.Doc>, buildOk: bool)
    : (r: Option<Passages.Store>)
    ensures pdfDocs == [] && jsonDocs == [] ==> r.None?
    ensures r.Some? <==> (pdfDocs != [] || jsonDocs != []) && buildOk
    ensures r.Some? ==> r.value.chunks == split(pdfDocs + jsonDocs)
  {
    var all := pdfDocs + jsonDocs;
    if all == [] then None
    else if !buildOk then None
    else Some(Passages.Store(split(all)))
  }

  /** `get_vectorstore`: `loaded` is what `load_existing_vectorstore` gives
      (`None` when the directory is missing or loading raises). */
  function GetVectorstore(force: bool, loaded: Option<Passages.Store>,
                          pdfDocs: seq<Passages.Doc>, jsonDocs: seq<Passages.Doc>,
                          split: seq<Passages.Doc> -> seq<Passages.Doc>, buildOk: bool)
    : (r: Option<Passages.Store>)
    ensures !force && loaded.Some? ==> r == loaded
    ensures force || loaded.None? ==> r == CreateVectorstore(pdfDocs, jsonDocs, split, buildOk)
  {
    if !force && loaded.Some? then loaded
    else CreateVectorstore(pdfDocs, jsonDocs, split, buildOk)
  }

  /** The index is rebuilt only when forced or when nothing could be loaded;
      a rebuild over no passages yields no index. */
  lemma RebuildOnlyWhenNeeded(force: bool, loaded: Option<Passages.Store>,
                              pdfDocs: seq<Passages.Doc>, jsonDocs: seq<Passages.Doc>,
                              split: seq<Passages.Doc> -> seq<Passages.Doc>, buildOk: bool)
    ensures GetVectorstore(force, loaded, pdfDocs, jsonDocs, split, buildOk) != loaded ==> force || loaded.None?
    ensures (force || loaded.None?) && pdfDocs == [] && jsonDocs == [] ==>
      GetVectorstore(force, loaded, pdfDocs, jsonDocs, split, buildOk).None?
  {
  }
}
