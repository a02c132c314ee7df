/** The pure parts of the scholarship scraper: translating CSS classes into
    labels, completing links, the three-strategy detail parser over an
    abstract page, the per-item error substitution, and the corpus summary.
    The browser and the HTML parser are replaced by the page structures they
    would yield. */
module Scraper {
  import opened Wrappers
  import Strings
  import Dict
  import Ordering
  import Json
  import Passages
  import VectorDb

  const UrlBase := "https://becas.utpl.edu.ec/"
  const SavePath := "knowledge_base/corpus_utpl.json"

  /** `mapa_tipos`, in its declaration order. */
  const TypeMap: seq<(string, string)> := [
    ("Excelencia", "Beca de Excelencia"),
    ("Inclusión", "Beca de Inclusión"),
    ("Estratégica", "Beca Estratégica"),
    ("Apoyo", "Beca de Apoyo Económico"),
    ("Meritos", "Méritos Universitarios"),
    ("Convenios", "Convenios Institucionales")]

  /** `mapa_modalidades`, in its declaration order. */
  const ModalityMap: seq<(string, string)> := [
    ("Presencial", "Presencial"),
    ("Distancia", "Abierta y a Distancia"),
    ("Linea", "En Línea")]

  /** `[v for k, v in m.items() if k in classes]` */
  function Labels(m: seq<(string, string)>, classes: seq<string>): (r: seq<string>)
    ensures |r| <= |m|
    ensures forall v | v in r :: exists i | 0 <= i < |m| :: m[i].1 == v && m[i].0 in classes
  {
    if |m| == 0 then []
    else
      var rest := Labels(m[1..], classes);
      var r := (if m[0].0 in classes then [m[0].1] else []) + rest;
      assert forall i | 0 <= i < |m[1..]| :: m[1..][i] == m[i + 1];
      r
  }

  /** Every mapped class present yields its label. */
  lemma {:induction false} LabelsComplete(m: seq<(string, string)>, classes: seq<string>, i: int)
    requires 0 <= i < |m| && m[i].0 in classes
    ensures m[i].1 in Labels(m, classes)
  {
    if i > 0 {
      LabelsComplete(m[1..], classes, i - 1);
    }
  }

  /** The labels depend on which classes are present only: order and
      repetitions of the classes do not matter. */
  lemma {:induction false} LabelsBySet(m: seq<(string, string)>, c1: seq<string>, c2: seq<string>)
    requires forall c :: c in c1 <==> c in c2
    ensures Labels(m, c1) == Labels(m, c2)
  {
    if |m| > 0 {
      LabelsBySet(m[1..], c1, c2);
    }
  }

  /** `_procesar_metadatos`: the type and modality labels of a listing item. */
  function ProcessMetadata(classes: seq<string>): (r: (seq<string>, seq<string>))
    ensures |r.0| <= 6 && |r.1| <= 3
    ensures forall v | v in r.0 :: exists i | 0 <= i < |TypeMap| :: TypeMap[i].1 == v && TypeMap[i].0 in classes
    ensures forall v | v in r.1 :: exists i | 0 <= i < |ModalityMap| :: ModalityMap[i].1 == v && ModalityMap[i].0 in classes
  {
    (Labels(TypeMap, classes), Labels(ModalityMap, classes))
  }

  /** Unknown classes contribute nothing. */
  lemma UnknownClassesIgnored(classes: seq<string>, extra: string)
    requires forall i | 0 <= i < |TypeMap| :: TypeMap[i].0 != extra
    requires forall i | 0 <= i < |ModalityMap| :: ModalityMap[i].0 != extra
    ensures ProcessMetadata(classes + [extra]) == ProcessMetadata(classes)
  {
    UnknownIgnored(TypeMap, classes, extra);
    UnknownIgnored(ModalityMap, classes, extra);
  }

  lemma {:induction false} UnknownIgnored(m: seq<(string, string)>, classes: seq<string>, extra: string)
    requires forall i | 0 <= i < |m| :: m[i].0 != extra
    ensures Labels(m, classes + [extra]) == Labels(m, classes)
  {
    if |m| > 0 {
      UnknownIgnored(m[1..], classes, extra);
      assert m[0].0 in classes + [extra] <==> m[0].0 in classes;
    }
  }

  /** When every mapped class is present, every label appears, in map order. */
  lemma {:induction false} LabelsAll(m: seq<(string, string)>, classes: seq<string>)
    requires forall i | 0 <= i < |m| :: m[i].0 in classes
    ensures Labels(m, classes) == seq(|m|, i requires 0 <= i < |m| => m[i].1)
  {
    if |m| > 0 {
      LabelsAll(m[1..], classes);
    }
  }

  /** The full set of classes yields every label in map order. */
  lemma AllClasses(classes: seq<string>)
    requires forall i | 0 <= i < |TypeMap| :: TypeMap[i].0 in classes
    requires forall i | 0 <= i < |ModalityMap| :: ModalityMap[i].0 in classes
    ensures ProcessMetadata(classes).0 == ["Beca de Excelencia", "Beca de Inclusión", "Beca Estratégica",
                                           "Beca de Apoyo Económico", "Méritos Universitarios",
                                           "Convenios Institucionales"]
    ensures ProcessMetadata(classes).1 == ["Presencial", "Abierta y a Distancia", "En Línea"]
  {
    LabelsAll(TypeMap, classes);
    LabelsAll(ModalityMap, classes);
  }

  /** The link of a listing item: a non-empty `href` not starting with
      "http" is taken relative to the site; `None` is a missing `href`. */
  function CompleteUrl(href: Option<string>): (r: Option<string>)
    ensures href.None? ==> r.None?
    ensures href.Some? && (href.value == "" || Strings.StartsWith(href.value, "http")) ==> r == href
    ensures href.Some? && href.value != "" && !Strings.StartsWith(href.value, "http") ==>
      r.Some? && Strings.StartsWith(r.value, UrlBase) && Strings.EndsWith(r.value, href.value)
  {
    match href
    case None => None
    case Some(h) =>
      if h != "" && !Strings.StartsWith(h, "http") then
        var u := UrlBase + h;
        assert u[..|UrlBase|] == UrlBase && u[|u| - |h|..] == h;
        Some(u)
      else href
  }

  /** Completing a link is idempotent: a completed link starts with "http". */
  lemma CompleteUrlIdempotent(href: Option<string>)
    ensures CompleteUrl(CompleteUrl(href)) == CompleteUrl(href)
  {
    if href.Some? && href.value != "" && !Strings.StartsWith(href.value, "http") {
      var u := CompleteUrl(href).value;
      assert u[..4] == UrlBase[..4] == "http";
    }
  }

  // ---------------------------------------------------------------------
  // Detail page parser

  /** A `div.field` block: its label and items, when present, as text
      already extracted with `strip=True`. */
  datatype Field = Field(name: Option<string>, items: Option<string>)

  /** A table row: the text of its cells. */
  datatype Row = Row(cells: seq<string>)

  /** The content region of a detail page. */
  datatype Region = Region(fields: seq<Field>, rows: seq<Row>, text: string)

  /** A detail page: the `region-content` div, else the `content` div. */
  datatype Page = Page(regionContent: Option<Region>, content: Option<Region>)

  const NoteKey := "Nota"
  const NoRegionNote := "No se detectó el contenedor principal de contenido."
  const GeneralKey := "Información General"
  const ErrorKey := "Error"
  const ErrorNote := "No se pudo extraer contenido."

  /** The pair a field block contributes: its label without trailing ':'
      and its items, when it has both parts. */
  predicate FieldGives(f: Field, p: (string, string)) {
    f.name.Some? && f.items.Some? && p == (Strings.RStripChar(f.name.value, ':'), f.items.value)
  }

  /** The pair a table row contributes: its first cell without trailing ':'
      and its second cell, when it has at least two cells. */
  predicate RowGives(row: Row, p: (string, string)) {
    |row.cells| >= 2 && p == (Strings.RStripChar(row.cells[0], ':'), row.cells[1])
  }

  function FieldPair(f: Field): (r: seq<(string, string)>)
    ensures |r| <= 1 && (|r| == 1 <==> f.name.Some? && f.items.Some?)
    ensures forall p :: p in r <==> FieldGives(f, p)
  {
    if f.name.Some? && f.items.Some? then [(Strings.RStripChar(f.name.value, ':'), f.items.value)] else []
  }

  function RowPair(row: Row): (r: seq<(string, string)>)
    ensures |r| <= 1 && (|r| == 1 <==> |row.cells| >= 2)
    ensures forall p :: p in r <==> RowGives(row, p)
  {
    if |row.cells| >= 2 then [(Strings.RStripChar(row.cells[0], ':'), row.cells[1])] else []
  }

  /** Strategy A: the (label without trailing ':', items) pair of every field
      block that has both parts, in page order. */
  function FieldPairs(fields: seq<Field>): (r: seq<(string, string)>)
    ensures |r| <= |fields|
    ensures |r| == 0 <==> !HasFieldPair(fields)
    ensures forall p :: p in r <==> exists i | 0 <= i < |fields| :: FieldGives(fields[i], p)
  {
    if |fields| == 0 then []
    else
      var init := fields[..|fields| - 1];
      assert fields == init + [fields[|fields| - 1]];
      FieldPairsSnoc(init, fields[|fields| - 1], FieldPairs(init));
      FieldPairs(init) + FieldPair(fields[|fields| - 1])
  }

  lemma FieldPairsSnoc(init: seq<Field>, f: Field, prev: seq<(string, string)>)
    requires forall p :: p in prev <==> exists i | 0 <= i < |init| :: FieldGives(init[i], p)
    requires |prev| == 0 <==> !HasFieldPair(init)
    ensures forall p :: p in prev + FieldPair(f) <==> exists i | 0 <= i < |init + [f]| :: FieldGives((init + [f])[i], p)
    ensures |prev + FieldPair(f)| == 0 <==> !HasFieldPair(init + [f])
  {
    var fields := init + [f];
    assert fields[|init|] == f;
    assert HasFieldPair(fields) <==> HasFieldPair(init) || (f.name.Some? && f.items.Some?) by {
      if HasFieldPair(init) {
        var i :| 0 <= i < |init| && init[i].name.Some? && init[i].items.Some?;
        assert fields[i] == init[i];
      }
      if HasFieldPair(fields) && !(f.name.Some? && f.items.Some?) {
        var i :| 0 <= i < |fields| && fields[i].name.Some? && fields[i].items.Some?;
        assert init[i] == fields[i];
      }
    }
    forall p ensures p in prev + FieldPair(f) <==> exists i | 0 <= i < |fields| :: FieldGives(fields[i], p) {
      if p in prev {
        var i :| 0 <= i < |init| && FieldGives(init[i], p);
        assert fields[i] == init[i];
      }
      if exists i | 0 <= i < |fields| :: FieldGives(fields[i], p) {
        var i :| 0 <= i < |fields| && FieldGives(fields[i], p);
        if i < |init| {
          assert init[i] == fields[i];
        }
      }
      if p in FieldPair(f) {
        assert FieldGives(fields[|init|], p);
      }
    }
  }

  /** Strategy B: the (first cell without trailing ':', second cell) pair of
      every row with at least two cells, in page order. */
  function RowPairs(rows: seq<Row>): (r: seq<(string, string)>)
    ensures |r| <= |rows|
    ensures |r| == 0 <==> !HasRowPair(rows)
    ensures forall p :: p in r <==> exists i | 0 <= i < |rows| :: RowGives(rows[i], p)
  {
    if |rows| == 0 then []
    else
      var init := rows[..|rows| - 1];
      assert rows == init + [rows[|rows| - 1]];
      RowPairsSnoc(init, rows[|rows| - 1], RowPairs(init));
      RowPairs(init) + RowPair(rows[|rows| - 1])
  }

  lemma RowPairsSnoc(init: seq<Row>, row: Row, prev: seq<(string, string)>)
    requires forall p :: p in prev <==> exists i | 0 <= i < |init| :: RowGives(init[i], p)
    requires |prev| == 0 <==> !HasRowPair(init)
    ensures forall p :: p in prev + RowPair(row) <==> exists i | 0 <= i < |init + [row]| :: RowGives((init + [row])[i], p)
    ensures |prev + RowPair(row)| == 0 <==> !HasRowPair(init + [row])
  {
    var rows := init + [row];
    assert rows[|init|] == row;
    assert HasRowPair(rows) <==> HasRowPair(init) || |row.cells| >= 2 by {
      if HasRowPair(init) {
        var i :| 0 <= i < |init| && |init[i].cells| >= 2;
        assert rows[i] == init[i];
      }
      if HasRowPair(rows) && |row.cells| < 2 {
        var i :| 0 <= i < |rows| && |rows[i].cells| >= 2;
        assert init[i] == rows[i];
      }
    }
    forall p ensures p in prev + RowPair(row) <==> exists i | 0 <= i < |rows| :: RowGives(rows[i], p) {
      if p in prev {
        var i :| 0 <= i < |init| && RowGives(init[i], p);
        assert rows[i] == init[i];
      }
      if exists i | 0 <= i < |rows| :: RowGives(rows[i], p) {
        var i :| 0 <= i < |rows| && RowGives(rows[i], p);
        if i < |init| {
          assert init[i] == rows[i];
        }
      }
      if p in RowPair(row) {
        assert RowGives(rows[|init|], p);
      }
    }
  }

  /** Field blocks are read in page order: the pairs of a page split in two
      are the pairs of the first part followed by those of the second. */
  lemma {:induction false} FieldPairsAppend(a: seq<Field>, b: seq<Field>)
    ensures FieldPairs(a + b) == FieldPairs(a) + FieldPairs(b)
    decreases |b|
  {
    if |b| > 0 {
      var b' := b[..|b| - 1];
      assert (a + b)[..|a + b| - 1] == a + b';
      FieldPairsAppend(a, b');
    } else {
      assert a + b == a;
    }
  }

  /** Table rows are read in page order. */
  lemma {:induction false} RowPairsAppend(a: seq<Row>, b: seq<Row>)
    ensures RowPairs(a + b) == RowPairs(a) + RowPairs(b)
    decreases |b|
  {
    if |b| > 0 {
      var b' := b[..|b| - 1];
      assert (a + b)[..|a + b| - 1] == a + b';
      RowPairsAppend(a, b');
    } else {
      assert a + b == a;
    }
  }

  predicate HasFieldPair(fields: seq<Field>) {
    exists i | 0 <= i < |fields| :: fields[i].name.Some? && fields[i].items.Some?
  }

  predicate HasRowPair(rows: seq<Row>) {
    exists i | 0 <= i < |rows| :: |rows[i].cells| >= 2
  }

  /** `_parsear_detalle_estructurado`: the pairs are stored into a fresh
      dictionary, so a repeated label keeps its first position and its last
      value. */
  function ParseDetail(page: Page): (r: seq<(string, string)>)
    ensures page.regionContent.None? && page.content.None? ==> r == [(NoteKey, NoRegionNote)]
    ensures |r| > 0
  {
    var region := if page.regionContent.Some? then page.regionContent else page.content;
    match region
    case None => [(NoteKey, NoRegionNote)]
    case Some(reg) =>
      if HasFieldPair(reg.fields) then StoreAll(FieldPairs(reg.fields))
      else if HasRowPair(reg.rows) then StoreAll(RowPairs(reg.rows))
      else [(GeneralKey, reg.text)]
  }

  function StoreAll(pairs: seq<(string, string)>): (r: seq<(string, string)>)
    requires |pairs| > 0
    ensures |r| > 0
  {
    var r := Dict.PutAll([], pairs);
    Dict.PutAllGet([], pairs, pairs[0].0);
    assert Dict.Keys(pairs)[0] == pairs[0].0;
    r
  }

  /** The strategies are tried in order: field blocks, then table rows, then
      the whole text. The table is consulted only when no field block had
      both parts, and the text only when neither gave a pair. A label holds
      the last value given for it. */
  lemma ParseDetailStrategies(page: Page, key: string)
    ensures var region := if page.regionContent.Some? then page.regionContent else page.content;
      region.Some? ==>
        var fp := FieldPairs(region.value.fields);
        var rp := RowPairs(region.value.rows);
        && (fp != [] ==>
              Dict.Get(ParseDetail(page), key) ==
              (if key in Dict.Keys(fp) then Some(Dict.LastValue(fp, key)) else None))
        && (fp == [] && rp != [] ==>
              Dict.Get(ParseDetail(page), key) ==
              (if key in Dict.Keys(rp) then Some(Dict.LastValue(rp, key)) else None))
        && (fp == [] && rp == [] ==> ParseDetail(page) == [(GeneralKey, region.value.text)])
  {
    var region := if page.regionContent.Some? then page.regionContent else page.content;
    if region.Some? {
      Dict.PutAllGet([], FieldPairs(region.value.fields), key);
      Dict.PutAllGet([], RowPairs(region.value.rows), key);
    }
  }

  // ---------------------------------------------------------------------
  // Scraping run

  /** A listing item: its link text and `href` (when it has a link) and its
      CSS classes. */
  datatype Item = Item(link: Option<(string, Option<string>)>, classes: seq<string>)

  /** The listing page: the item lists of the `grado`, `posgrado` and
      `tecnologia` sections, `None` when a section is absent. */
  datatype Listing = Listing(grado: Option<seq<Item>>, posgrado: Option<seq<Item>>, tecnologia: Option<seq<Item>>)

  /** A scraped scholarship as it is written to the corpus. The `url` is
      `None` for a link without `href` (JSON `null`). */
  datatype Beca = Beca(titulo: string, url: Option<string>, nivel: string,
                       tipos: seq<string>, modalidades: seq<string>,
                       contenido: seq<(string, string)>)

  /** The records of the items that have a link, in item order. */
  function SectionRecords(items: seq<Item>, nivel: string): (r: seq<Beca>)
    ensures |r| <= |items|
    ensures forall b | b in r :: b.nivel == nivel && b.contenido == []
  {
    if |items| == 0 then []
    else
      var rest := SectionRecords(items[1..], nivel);
      match items[0].link
      case None => rest
      case Some((text, href)) =>
        var (tipos, mods) := ProcessMetadata(items[0].classes);
        [Beca(text, CompleteUrl(href), nivel, tipos, mods, [])] + rest
  }

  /** Step 1: the listing, section by section in the order grado, posgrado,
      tecnologia, skipping absent sections. */
  function BuildListing(l: Listing): (r: seq<Beca>)
    ensures forall b | b in r :: b.nivel in {"Grado", "Posgrado", "Tecnologías"}
  {
    (if l.grado.Some? then SectionRecords(l.grado.value, "Grado") else [])
      + (if l.posgrado.Some? then SectionRecords(l.posgrado.value, "Posgrado") else [])
      + (if l.tecnologia.Some? then SectionRecords(l.tecnologia.value, "Tecnologías") else [])
  }

  /** Step 2: each record's details. `fetch` loads the page of a link, or
      gives the text of the exception raised. A listing item without `href`
      has `url == None`, and `driver.get(None)` raises in the source, so a
      faithful `fetch` gives an `Err` for `None`; such a record then carries
      the error note, as `DetailErrorContained` states. */
  function Enrich(becas: seq<Beca>, fetch: Option<string> -> Result<Page, string>): (r: seq<Beca>)
    ensures |r| == |becas|
    ensures forall i | 0 <= i < |becas| :: r[i] == becas[i].(contenido := Details(fetch(becas[i].url)))
  {
    if |becas| == 0 then []
    else
      var rest := Enrich(becas[1..], fetch);
      assert forall i | 1 <= i < |becas| :: becas[i] == becas[1..][i - 1];
      [becas[0].(contenido := Details(fetch(becas[0].url)))] + rest
  }

  /** The details of one record: the parsed page, or the error note when the
      page could not be loaded. */
  function Details(page: Result<Page, string>): seq<(string, string)> {
    match page
    case Ok(p) => ParseDetail(p)
    case Err(_) => [(ErrorKey, ErrorNote)]
  }

  /** The outcome of `scrape_becas`, and the corpus it wrote (if any). */
  datatype ScrapeOutcome = ScrapeOutcome(success: bool, count: nat, error: Option<string>,
                                         written: Option<seq<Beca>>)

  const CriticalErrorPrefix := "Error crítico en el scraping: "

  /** `scrape_becas`. `listing` is the main page (or the text of the
      exception raised while starting the browser or loading it); `save`
      says whether writing the corpus raised. */
  function ScrapeBecas(listing: Result<Listing, string>,
                       fetch: Option<string> -> Result<Page, string>,
                       save: Option<string>): (r: ScrapeOutcome)
    ensures r.success <==> listing.Ok? && save.None?
    ensures r.success ==>
      (r.error.None? && r.written.Some? && r.count == |r.written.value|
       && r.count == |BuildListing(listing.value)|)
    ensures r.success ==> r.written == Some(Enrich(BuildListing(listing.value), fetch))
    ensures listing.Err? ==> r.error == Some(CriticalErrorPrefix + listing.error)
    ensures listing.Ok? && save.Some? ==> r.error == Some(CriticalErrorPrefix + save.value)
    ensures !r.success ==>
      (r.count == 0 && r.written.None? && r.error.Some?
       && Strings.StartsWith(r.error.value, CriticalErrorPrefix))
  {
    match listing
    case Err(e) => Failure(e)
    case Ok(l) =>
      var becas := Enrich(BuildListing(l), fetch);
      match save
      case Some(e) => Failure(e)
      case None => ScrapeOutcome(true, |becas|, None, Some(becas))
  }

  function Failure(e: string): (r: ScrapeOutcome)
    ensures r.error == Some(CriticalErrorPrefix + e)
    ensures !r.success && r.count == 0 && r.written.None? && r.error.Some?
    ensures Strings.StartsWith(r.error.value, CriticalErrorPrefix)
  {
    var msg := CriticalErrorPrefix + e;
    assert msg[..|CriticalErrorPrefix|] == CriticalErrorPrefix;
    ScrapeOutcome(false, 0, Some(msg), None)
  }

  /** A failing detail page only replaces that record's details; the run
      still succeeds and keeps every record. */
  lemma DetailErrorContained(l: Listing, fetch: Option<string> -> Result<Page, string>, i: int)
    requires 0 <= i < |BuildListing(l)|
    requires fetch(BuildListing(l)[i].url).Err?
    ensures ScrapeBecas(Ok(l), fetch, None).success
    ensures ScrapeBecas(Ok(l), fetch, None).written.value[i].contenido == [(ErrorKey, ErrorNote)]
    ensures ScrapeBecas(Ok(l), fetch, None).written.value[i].titulo == BuildListing(l)[i].titulo
  {
  }

  // ---------------------------------------------------------------------
  // The corpus file

  function JsonStrings(ss: seq<string>): (r: seq<Json.Json>)
    ensures |r| == |ss| && forall i | 0 <= i < |ss| :: r[i] == Json.JStr(ss[i])
  {
    seq(|ss|, i requires 0 <= i < |ss| => Json.JStr(ss[i]))
  }

  /** `json.dump` of one record. */
  function ToJson(b: Beca): Json.Json {
    Json.JObj([
      ("titulo", Json.JStr(b.titulo)),
      ("url", if b.url.Some? then Json.JStr(b.url.value) else Json.JNull),
      ("nivel", Json.JStr(b.nivel)),
      ("tipos", Json.JArr(JsonStrings(b.tipos))),
      ("modalidades", Json.JArr(JsonStrings(b.modalidades))),
      ("contenido", Json.JObj(seq(|b.contenido|, i requires 0 <= i < |b.contenido| =>
                                    (b.contenido[i].0, Json.JStr(b.contenido[i].1)))))])
  }

  function CorpusJson(becas: seq<Beca>): Json.Json {
    Json.JArr(seq(|becas|, i requires 0 <= i < |becas| => ToJson(becas[i])))
  }

  /** Every scraped record renders: the indexer turns a freshly written
      corpus into exactly one passage per record, carrying its title, link,
      level and joined types. */
  lemma ScrapedRecordRenders(b: Beca)
    ensures VectorDb.RenderRecord(ToJson(b)).Some?
    ensures VectorDb.RenderRecord(ToJson(b)).value.meta.titulo == Some(Json.JStr(b.titulo))
    ensures VectorDb.RenderRecord(ToJson(b)).value.meta.nivel == Some(Json.JStr(b.nivel))
    ensures VectorDb.RenderRecord(ToJson(b)).value.meta.url ==
      Some(if b.url.Some? then Json.JStr(b.url.value) else Json.JNull)
    ensures VectorDb.RenderRecord(ToJson(b)).value.meta.tipo == Some(Strings.Join(", ", b.tipos))
  {
    ToJsonLookups(b);
    VectorDb.JoinTagsStrings(b.tipos);
    VectorDb.JoinTagsStrings(b.modalidades);
    VectorDb.RenderRecordSpec(ToJson(b));
  }

  /** The keys of a serialised record are distinct, so each lookup finds
      the field written under it. */
  lemma ToJsonLookups(b: Beca)
    ensures Dict.Get(ToJson(b).fields, "titulo") == Some(Json.JStr(b.titulo))
    ensures Dict.Get(ToJson(b).fields, "url") == Some(if b.url.Some? then Json.JStr(b.url.value) else Json.JNull)
    ensures Dict.Get(ToJson(b).fields, "nivel") == Some(Json.JStr(b.nivel))
    ensures Dict.Get(ToJson(b).fields, "tipos") == Some(Json.JArr(JsonStrings(b.tipos)))
    ensures Dict.Get(ToJson(b).fields, "modalidades") == Some(Json.JArr(JsonStrings(b.modalidades)))
  {
    var fs := ToJson(b).fields;
    ToJsonLookup(fs, 0);
    ToJsonLookup(fs, 1);
    ToJsonLookup(fs, 2);
    ToJsonLookup(fs, 3);
    ToJsonLookup(fs, 4);
  }

  lemma ToJsonLookup(fs: seq<(string, Json.Json)>, i: int)
    requires |fs| == 6 && 0 <= i < 5
    requires fs[0].0 == "titulo" && fs[1].0 == "url" && fs[2].0 == "nivel"
    requires fs[3].0 == "tipos" && fs[4].0 == "modalidades"
    ensures Dict.Get(fs, fs[i].0) == Some(fs[i].1)
  {
    Dict.GetAt(fs, i);
  }

  lemma ScrapedCorpusIndexed(becas: seq<Beca>)
    ensures |VectorDb.ExtractJsonText(Some(Ok(CorpusJson(becas))))| == |becas|
    ensures forall i | 0 <= i < |becas| ::
      VectorDb.ExtractJsonText(Some(Ok(CorpusJson(becas))))[i].meta.titulo == Some(Json.JStr(becas[i].titulo))
  {
    var items := seq(|becas|, i requires 0 <= i < |becas| => ToJson(becas[i]));
    forall i | 0 <= i < |items| ensures VectorDb.RenderRecord(items[i]).Some? {
      ScrapedRecordRenders(becas[i]);
    }
    VectorDb.JsonOnePerRecord(items);
    forall i | 0 <= i < |becas|
      ensures VectorDb.ExtractJsonText(Some(Ok(CorpusJson(becas))))[i].meta.titulo == Some(Json.JStr(becas[i].titulo))
    {
      ScrapedRecordRenders(becas[i]);
    }
  }

  /** Summary of the corpus file. */
  datatype CorpusInfo = CorpusInfo(numBecas: nat, fileSize: nat, lastModified: int)

  /** `get_corpus_info`: `file` is `None` when the corpus does not exist and
      otherwise the outcome of parsing it; `size` and `mtime` are what the
      file system reports. */
  function GetCorpusInfo(file: Option<Result<Json.Json, string>>, size: nat, mtime: int): (r: Option<CorpusInfo>)
    ensures r.Some? <==> file.Some? && file.value.Ok? && Json.Len(file.value.value).Some?
    ensures r.Some? ==>
      (r.value.numBecas == Json.Len(file.value.value).value
       && r.value.fileSize == size && r.value.lastModified == mtime)
  {
    match file
    case None => None
    case Some(Err(_)) => None
    case Some(Ok(data)) =>
      match Json.Len(data)
      case None => None
      case Some(n) => Some(CorpusInfo(n, size, mtime))
  }

  /** The summary of a successful run's corpus counts the scraped records. */
  lemma CorpusInfoAfterScrape(becas: seq<Beca>, size: nat, mtime: int)
    ensures GetCorpusInfo(Some(Ok(CorpusJson(becas))), size, mtime) == Some(CorpusInfo(|becas|, size, mtime))
  {
  }
}
