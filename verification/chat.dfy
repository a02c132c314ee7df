/** The retrieval-augmented chat service: building and caching the retrieval
    chain, answering a question, converting stored messages into the chain's
    history format, and grouping the retrieved passages into citations. */
module Chat {
  import opened Wrappers
  import Strings
  import Dict
  import Ordering
  import Json
  import Passages

  // ---------------------------------------------------------------------
  // Language model and retrieval chain

  /** Configuration of the hosted language model. The temperature is kept in
      tenths (0.2 is 2). */
  datatype Llm = Llm(model: string, temperatureTenths: int, maxOutputTokens: nat)

  const GeminiModel: Llm := Llm("gemini-2.5-flash", 2, 2048)

  /** Number of passages the retriever hands to the model. */
  const RetrievalK: nat := 15

  /** A similarity retriever over `store` returning `k` passages, feeding a
      stuff-documents chain on `llm`. */
  datatype Chain = Chain(llm: Llm, store: Passages.Store, k: nat)

  /** The service keeps the model once it has been created. */
  datatype Service = Service(llm: Option<Llm>)

  /** `_get_llm`: reuses the cached model; otherwise creates it, which fails
      when the provider refuses the connection (`connectOk` false). */
  function GetLlm(s: Service, connectOk: bool): (r: (Service, Option<Llm>))
    ensures s.llm.Some? ==> r == (s, s.llm)
    ensures r.1 == r.0.llm
    ensures r.1.Some? ==> r.1 == s.llm || r.1 == Some(GeminiModel)
    ensures r.1.None? <==> s.llm.None? && !connectOk
  {
    if s.llm.Some? then (s, s.llm)
    else if connectOk then (Service(Some(GeminiModel)), Some(GeminiModel))
    else (s, None)
  }

  /** `create_retrieval_chain`: `None` when no model is available or when
      assembling the chain fails (`buildOk` false). */
  function CreateChain(s: Service, store: Passages.Store, connectOk: bool, buildOk: bool)
    : (r: (Service, Option<Chain>))
    ensures r.1.Some? <==> (s.llm.Some? || connectOk) && buildOk
    ensures r.1.Some? ==>
      (r.1.value.store == store && r.1.value.k == RetrievalK && Some(r.1.value.llm) == r.0.llm)
  {
    var (s', llm) := GetLlm(s, connectOk);
    if llm.None? then (s', None)
    else if !buildOk then (s', None)
    else (s', Some(Chain(llm.value, store, RetrievalK)))
  }

  /** `get_retrieval_chain`: a cached chain is returned as is. */
  function GetChain(s: Service, store: Passages.Store, cached: Option<Chain>,
                    connectOk: bool, buildOk: bool): (r: (Service, Option<Chain>))
    ensures cached.Some? ==> r == (s, cached)
    ensures cached.None? ==> r == CreateChain(s, store, connectOk, buildOk)
  {
    if cached.Some? then (s, cached) else CreateChain(s, store, connectOk, buildOk)
  }

  // ---------------------------------------------------------------------
  // Chat history conversion

  /** A stored message as the view hands it over: `{'role': ..., 'content': ...}`. */
  datatype MessageData = MessageData(role: string, content: string)

  datatype LcMessage = Human(text: string) | Ai(text: string)

  /** The reference conversion: human and ai turns in order, other roles dropped. */
  function Converted(ms: seq<MessageData>): (r: seq<LcMessage>)
    ensures |r| <= |ms|
  {
    if |ms| == 0 then []
    else
      var m := ms[|ms| - 1];
      Converted(ms[..|ms| - 1])
        + (if m.role == "human" then [Human(m.content)]
           else if m.role == "ai" then [Ai(m.content)]
           else [])
  }

  /** Conversion distributes over concatenation, so the history of a longer
      conversation extends the history of its prefix. */
  lemma {:induction false} ConvertedAppend(a: seq<MessageData>, b: seq<MessageData>)
    ensures Converted(a + b) == Converted(a) + Converted(b)
  {
    if |b| > 0 {
      var ab := a + b;
      assert ab[..|ab| - 1] == a + b[..|b| - 1];
      assert ab[|ab| - 1] == b[|b| - 1];
      ConvertedAppend(a, b[..|b| - 1]);
    } else {
      assert a + b == a;
    }
  }

  /** Every converted message carries the content of an input message whose
      role is `human` (for `Human`) or `ai` (for `Ai`). */
  lemma {:induction false} ConvertedFaithful(ms: seq<MessageData>, j: int)
    requires 0 <= j < |Converted(ms)|
    ensures exists i | 0 <= i < |ms| ::
      Converted(ms)[j] == (if ms[i].role == "human" then Human(ms[i].content) else Ai(ms[i].content))
      && (ms[i].role == "human" || ms[i].role == "ai")
  {
    var init := ms[..|ms| - 1];
    var m := ms[|ms| - 1];
    if j < |Converted(init)| {
      ConvertedFaithful(init, j);
      var i :| 0 <= i < |init| &&
        Converted(init)[j] == (if init[i].role == "human" then Human(init[i].content) else Ai(init[i].content))
        && (init[i].role == "human" || init[i].role == "ai");
      assert ms[i] == init[i];
    } else {
      assert Converted(ms)[j] == (if m.role == "human" then Human(m.content) else Ai(m.content));
      assert ms[|ms| - 1] == m;
    }
  }

  /** `convert_to_langchain_messages` */
  method ConvertMessages(ms: seq<MessageData>) returns (out: seq<LcMessage>)
    ensures out == Converted(ms)
  {
    out := [];
    var i := 0;
    while i < |ms|
      invariant 0 <= i <= |ms|
      invariant out == Converted(ms[..i])
    {
      var m := ms[i];
      assert ms[..i + 1][..i] == ms[..i];
      if m.role == "human" {
        out := out + [Human(m.content)];
      } else if m.role == "ai" {
        out := out + [Ai(m.content)];
      }
      i := i + 1;
    }
    assert ms[..i] == ms;
  }

  // ---------------------------------------------------------------------
  // Answering

  /** What invoking the chain yields: the answer and, when present, the
      passages it was given. */
  datatype Response = Response(answer: string, context: Option<seq<Passages.Doc>>)

  const NoModelAnswer := "No se pudo conectar con el modelo de IA."
  const ErrorAnswerPrefix := "Ocurrió un error al procesar tu consulta: "

  /** `get_response`. The model call is the parameter `invoke`, which yields
      the response or the text of the exception it raised. */
  function GetResponse(s: Service, question: string, history: seq<LcMessage>,
                       store: Passages.Store, cached: Option<Chain>,
                       connectOk: bool, buildOk: bool,
                       invoke: (Chain, string, seq<LcMessage>) -> Result<Response, string>)
    : (r: (Service, string, seq<Passages.Doc>))
    ensures var ch := GetChain(s, store, cached, connectOk, buildOk).1;
      && (ch.None? ==> r.1 == NoModelAnswer && r.2 == [])
      && (ch.Some? && invoke(ch.value, question, history).Err? ==>
            r.1 == ErrorAnswerPrefix + invoke(ch.value, question, history).error && r.2 == [])
      && (ch.Some? && invoke(ch.value, question, history).Ok? ==>
            r.1 == invoke(ch.value, question, history).value.answer
            && r.2 == invoke(ch.value, question, history).value.context.GetOr([]))
    ensures r.0 == GetChain(s, store, cached, connectOk, buildOk).0
  {
    var (s', chain) := GetChain(s, store, cached, connectOk, buildOk);
    if chain.None? then (s', NoModelAnswer, [])
    else match invoke(chain.value, question, history)
      case Err(e) => (s', ErrorAnswerPrefix + e, [])
      case Ok(resp) => (s', resp.answer, resp.context.GetOr([]))
  }

  /** Without a cached chain and without a reachable model the user gets the
      fixed apology and no citations, whatever the question. */
  lemma NoModelNoCitations(s: Service, question: string, history: seq<LcMessage>,
                           store: Passages.Store, buildOk: bool,
                           invoke: (Chain, string, seq<LcMessage>) -> Result<Response, string>)
    requires s.llm.None?
    ensures GetResponse(s, question, history, store, None, false, buildOk, invoke).1 == NoModelAnswer
    ensures GetResponse(s, question, history, store, None, false, buildOk, invoke).2 == []
  {
  }

  // ---------------------------------------------------------------------
  // Citations

  /** Citations grouped by PDF file name (pages) and by web source (titles). */
  datatype SourceInfo = SourceInfo(
    pdfSources: seq<(string, seq<string>)>,
    webSources: seq<(string, seq<Json.Json>)>)

  /** The grouping before duplicates are removed. */
  datatype Raw = Raw(pdf: seq<(string, seq<int>)>, web: seq<(string, seq<Json.Json>)>)

  function SourceOf(d: Passages.Doc): string {
    d.meta.source.GetOr("Desconocido")
  }

  predicate IsPdf(d: Passages.Doc) {
    Strings.EndsWith(SourceOf(d), ".pdf")
  }

  function PdfName(d: Passages.Doc): string {
    Strings.Basename(SourceOf(d))
  }

  /** The file names of the PDF passages, in retrieval order. */
  function PdfNames(docs: seq<Passages.Doc>): seq<string> {
    if |docs| == 0 then []
    else
      var d := docs[|docs| - 1];
      PdfNames(docs[..|docs| - 1]) + (if IsPdf(d) then [PdfName(d)] else [])
  }

  lemma PdfNamesStep(docs: seq<Passages.Doc>, n: string)
    requires |docs| > 0
    ensures n in PdfNames(docs) <==>
      n in PdfNames(docs[..|docs| - 1]) || (IsPdf(docs[|docs| - 1]) && PdfName(docs[|docs| - 1]) == n)
  {
  }

  lemma {:induction false} PdfNamesMember(docs: seq<Passages.Doc>, n: string)
    ensures n in PdfNames(docs) <==> CitesPdf(docs, n)
  {
    if |docs| > 0 {
      var init := docs[..|docs| - 1];
      PdfNamesMember(init, n);
      PdfNamesStep(docs, n);
      if CitesPdf(init, n) {
        var i :| 0 <= i < |init| && IsPdf(init[i]) && PdfName(init[i]) == n;
        assert docs[i] == init[i];
      }
      if CitesPdf(docs, n) {
        var i :| 0 <= i < |docs| && IsPdf(docs[i]) && PdfName(docs[i]) == n;
        if i < |init| {
          assert init[i] == docs[i];
        }
      }
    }
  }

  /** The sources of the other passages, in retrieval order. */
  function WebNames(docs: seq<Passages.Doc>): seq<string> {
    if |docs| == 0 then []
    else
      var d := docs[|docs| - 1];
      WebNames(docs[..|docs| - 1]) + (if !IsPdf(d) then [SourceOf(d)] else [])
  }

  lemma WebNamesStep(docs: seq<Passages.Doc>, n: string)
    requires |docs| > 0
    ensures n in WebNames(docs) <==>
      n in WebNames(docs[..|docs| - 1]) || (!IsPdf(docs[|docs| - 1]) && SourceOf(docs[|docs| - 1]) == n)
  {
  }

  lemma {:induction false} WebNamesMember(docs: seq<Passages.Doc>, n: string)
    ensures n in WebNames(docs) <==> CitesWeb(docs, n)
  {
    if |docs| > 0 {
      var init := docs[..|docs| - 1];
      WebNamesMember(init, n);
      WebNamesStep(docs, n);
      if CitesWeb(init, n) {
        var i :| 0 <= i < |init| && !IsPdf(init[i]) && SourceOf(init[i]) == n;
        assert docs[i] == init[i];
      }
      if CitesWeb(docs, n) {
        var i :| 0 <= i < |docs| && !IsPdf(docs[i]) && SourceOf(docs[i]) == n;
        if i < |init| {
          assert init[i] == docs[i];
        }
      }
    }
  }

  /** The page numbers of the passages from PDF file `name`, in retrieval order. */
  function PagesOf(docs: seq<Passages.Doc>, name: string): seq<int> {
    if |docs| == 0 then []
    else
      var d := docs[|docs| - 1];
      PagesOf(docs[..|docs| - 1], name)
        + (if IsPdf(d) && PdfName(d) == name && d.meta.page.Some? then [d.meta.page.value] else [])
  }

  /** Passage `d` is page `p` of PDF `name`. */
  predicate PageHit(d: Passages.Doc, name: string, p: int) {
    IsPdf(d) && PdfName(d) == name && d.meta.page == Some(p)
  }

  /** Some retrieved passage is page `p` of PDF file `name`. */
  predicate HasPage(docs: seq<Passages.Doc>, name: string, p: int) {
    exists i | 0 <= i < |docs| :: PageHit(docs[i], name, p)
  }

  lemma PagesOfStep(docs: seq<Passages.Doc>, name: string, p: int)
    requires |docs| > 0
    ensures p in PagesOf(docs, name) <==> p in PagesOf(docs[..|docs| - 1], name) || PageHit(docs[|docs| - 1], name, p)
  {
  }

  lemma {:induction false} PagesOfMember(docs: seq<Passages.Doc>, name: string, p: int)
    ensures p in PagesOf(docs, name) <==> HasPage(docs, name, p)
  {
    if |docs| > 0 {
      var init := docs[..|docs| - 1];
      PagesOfMember(init, name, p);
      PagesOfStep(docs, name, p);
      if HasPage(init, name, p) {
        var i :| 0 <= i < |init| && PageHit(init[i], name, p);
        assert docs[i] == init[i];
      }
      if HasPage(docs, name, p) {
        var i :| 0 <= i < |docs| && PageHit(docs[i], name, p);
        if i < |init| {
          assert init[i] == docs[i];
        }
      }
    }
  }

  /** The titles of the passages from web source `src`, in retrieval order. */
  function TitlesOf(docs: seq<Passages.Doc>, src: string): seq<Json.Json> {
    if |docs| == 0 then []
    else
      var d := docs[|docs| - 1];
      TitlesOf(docs[..|docs| - 1], src)
        + (if !IsPdf(d) && SourceOf(d) == src && d.meta.titulo.Some? then [d.meta.titulo.value] else [])
  }

  /** Passage `d` is from web source `src` and carries title `t`. */
  predicate TitleHit(d: Passages.Doc, src: string, t: Json.Json) {
    !IsPdf(d) && SourceOf(d) == src && d.meta.titulo == Some(t)
  }

  lemma TitlesOfStep(docs: seq<Passages.Doc>, src: string, t: Json.Json)
    requires |docs| > 0
    ensures t in TitlesOf(docs, src) <==> t in TitlesOf(docs[..|docs| - 1], src) || TitleHit(docs[|docs| - 1], src, t)
  {
  }

  lemma {:induction false} TitlesOfMember(docs: seq<Passages.Doc>, src: string, t: Json.Json)
    ensures t in TitlesOf(docs, src) <==> CitesTitle(docs, src, t)
  {
    if |docs| > 0 {
      var init := docs[..|docs| - 1];
      TitlesOfMember(init, src, t);
      TitlesOfStep(docs, src, t);
      if CitesTitle(init, src, t) {
        var i :| 0 <= i < |init| && TitleHit(init[i], src, t);
        assert docs[i] == init[i];
      }
      if CitesTitle(docs, src, t) {
        var i :| 0 <= i < |docs| && TitleHit(docs[i], src, t);
        if i < |init| {
          assert init[i] == docs[i];
        }
      }
    }
  }

  /** One iteration of the grouping loop. */
  function AddDoc(acc: Raw, d: Passages.Doc): Raw {
    if IsPdf(d) then
      var name := PdfName(d);
      var pages := Dict.Get(acc.pdf, name).GetOr([]);
      acc.(pdf := Dict.Put(acc.pdf, name, pages + (if d.meta.page.Some? then [d.meta.page.value] else [])))
    else
      var src := SourceOf(d);
      var titles := Dict.Get(acc.web, src).GetOr([]);
      acc.(web := Dict.Put(acc.web, src, titles + (if d.meta.titulo.Some? then [d.meta.titulo.value] else [])))
  }

  function Collect(docs: seq<Passages.Doc>): Raw {
    if |docs| == 0 then Raw([], [])
    else AddDoc(Collect(docs[..|docs| - 1]), docs[|docs| - 1])
  }

  /** The grouping loop builds one entry per distinct PDF file name, in order
      of first retrieval. */
  lemma {:induction false} CollectPdfKeys(docs: seq<Passages.Doc>)
    ensures Dict.Keys(Collect(docs).pdf) == Ordering.Dedup(PdfNames(docs))
  {
    if |docs| > 0 {
      var init := docs[..|docs| - 1];
      var d := docs[|docs| - 1];
      CollectPdfKeys(init);
      var raw := Collect(init);
      if IsPdf(d) {
        var name := PdfName(d);
        var v := Dict.Get(raw.pdf, name).GetOr([]) + (if d.meta.page.Some? then [d.meta.page.value] else []);
        assert Collect(docs).pdf == Dict.Put(raw.pdf, name, v);
        assert PdfNames(docs) == PdfNames(init) + [name];
        Dict.PutKeys(raw.pdf, name, v);
        Ordering.DedupSnoc(PdfNames(init), name);
      } else {
        assert Collect(docs).pdf == raw.pdf;
        assert PdfNames(docs) == PdfNames(init);
      }
    }
  }

  /** The entry of PDF file `n` holds exactly its pages in retrieval order. */
  lemma {:induction false} CollectPdfGet(docs: seq<Passages.Doc>, n: string)
    ensures Dict.Get(Collect(docs).pdf, n) == (if n in PdfNames(docs) then Some(PagesOf(docs, n)) else None)
  {
    if |docs| == 0 {
      assert Collect(docs).pdf == [];
      assert PdfNames(docs) == [];
    } else {
      var init := docs[..|docs| - 1];
      var d := docs[|docs| - 1];
      CollectPdfGet(init, n);
      var raw := Collect(init);
      var last := if IsPdf(d) && PdfName(d) == n && d.meta.page.Some? then [d.meta.page.value] else [];
      assert PagesOf(docs, n) == PagesOf(init, n) + last;
      if IsPdf(d) {
        var name := PdfName(d);
        var v := Dict.Get(raw.pdf, name).GetOr([]) + (if d.meta.page.Some? then [d.meta.page.value] else []);
        assert Collect(docs).pdf == Dict.Put(raw.pdf, name, v);
        assert PdfNames(docs) == PdfNames(init) + [name];
        if n == name {
          if name !in PdfNames(init) {
            PagesOfAbsent(init, name);
          }
          assert v == PagesOf(init, n) + last;
          assert Dict.Get(Collect(docs).pdf, n) == Some(v);
        } else {
          Dict.PutOther(raw.pdf, name, v, n);
          assert last == [];
          assert PagesOf(docs, n) == PagesOf(init, n);
          assert n in PdfNames(docs) <==> n in PdfNames(init);
        }
      } else {
        assert Collect(docs).pdf == raw.pdf;
        assert PdfNames(docs) == PdfNames(init);
        assert last == [];
        assert PagesOf(docs, n) == PagesOf(init, n);
      }
    }
  }

  /** Likewise one entry per distinct web source, in order of first retrieval. */
  lemma {:induction false} CollectWebKeys(docs: seq<Passages.Doc>)
    ensures Dict.Keys(Collect(docs).web) == Ordering.Dedup(WebNames(docs))
  {
    if |docs| > 0 {
      var init := docs[..|docs| - 1];
      var d := docs[|docs| - 1];
      CollectWebKeys(init);
      var raw := Collect(init);
      if !IsPdf(d) {
        var src := SourceOf(d);
        var v := Dict.Get(raw.web, src).GetOr([]) + (if d.meta.titulo.Some? then [d.meta.titulo.value] else []);
        assert Collect(docs).web == Dict.Put(raw.web, src, v);
        assert WebNames(docs) == WebNames(init) + [src];
        Dict.PutKeys(raw.web, src, v);
        Ordering.DedupSnoc(WebNames(init), src);
      } else {
        assert Collect(docs).web == raw.web;
        assert WebNames(docs) == WebNames(init);
      }
    }
  }

  /** The entry of web source `n` holds exactly its titles in retrieval order. */
  lemma {:induction false} CollectWebGet(docs: seq<Passages.Doc>, n: string)
    ensures Dict.Get(Collect(docs).web, n) == (if n in WebNames(docs) then Some(TitlesOf(docs, n)) else None)
  {
    if |docs| == 0 {
      assert Collect(docs).web == [];
      assert WebNames(docs) == [];
    } else {
      var init := docs[..|docs| - 1];
      var d := docs[|docs| - 1];
      CollectWebGet(init, n);
      var raw := Collect(init);
      var last := if !IsPdf(d) && SourceOf(d) == n && d.meta.titulo.Some? then [d.meta.titulo.value] else [];
      assert TitlesOf(docs, n) == TitlesOf(init, n) + last;
      if !IsPdf(d) {
        var src := SourceOf(d);
        var v := Dict.Get(raw.web, src).GetOr([]) + (if d.meta.titulo.Some? then [d.meta.titulo.value] else []);
        assert Collect(docs).web == Dict.Put(raw.web, src, v);
        assert WebNames(docs) == WebNames(init) + [src];
        if n == src {
          if src !in WebNames(init) {
            TitlesOfAbsent(init, src);
          }
          assert v == TitlesOf(init, n) + last;
          assert Dict.Get(Collect(docs).web, n) == Some(v);
        } else {
          Dict.PutOther(raw.web, src, v, n);
          assert last == [];
          assert TitlesOf(docs, n) == TitlesOf(init, n);
          assert n in WebNames(docs) <==> n in WebNames(init);
        }
      } else {
        assert Collect(docs).web == raw.web;
        assert WebNames(docs) == WebNames(init);
        assert last == [];
        assert TitlesOf(docs, n) == TitlesOf(init, n);
      }
    }
  }

  lemma {:induction false} PagesOfAbsent(docs: seq<Passages.Doc>, name: string)
    requires name !in PdfNames(docs)
    ensures PagesOf(docs, name) == []
  {
    if |docs| > 0 {
      PagesOfAbsent(docs[..|docs| - 1], name);
    }
  }

  lemma {:induction false} TitlesOfAbsent(docs: seq<Passages.Doc>, src: string)
    requires src !in WebNames(docs)
    ensures TitlesOf(docs, src) == []
  {
    if |docs| > 0 {
      TitlesOfAbsent(docs[..|docs| - 1], src);
    }
  }

  /** Sort key of a page label: its integer value when it is all digits, else 0. */
  function PageRank(x: string): int {
    if Strings.IsDigits(x) then Strings.DigitsValue(x) else 0
  }

  /** `map(str, pages)` */
  function PageLabels(pages: seq<int>): (r: seq<string>)
    ensures |r| == |pages|
    ensures forall i | 0 <= i < |pages| :: r[i] == Strings.IntToString(pages[i])
  {
    if |pages| == 0 then [] else [Strings.IntToString(pages[0])] + PageLabels(pages[1..])
  }

  /** `sorted(set(map(str, pages)), key=...)`. Python leaves the order of
      equal-key labels to set iteration; here they keep first-seen order. */
  function CleanPages(pages: seq<int>): (r: seq<string>)
    ensures Ordering.NoDup(r)
    ensures Ordering.SortedBy(r, PageRank)
    ensures forall x :: x in r <==> x in PageLabels(pages)
  {
    var unique := Ordering.Dedup(PageLabels(pages));
    var r := Ordering.SortBy(unique, PageRank);
    Ordering.SortByNoDup(unique, PageRank);
    assert forall x :: x in r <==> x in multiset(unique);
    r
  }

  /** `list(set(titles))`, in first-seen order. */
  function CleanTitles(titles: seq<Json.Json>): (r: seq<Json.Json>)
    ensures Ordering.NoDup(r)
    ensures forall t :: t in r <==> t in titles
  {
    Ordering.Dedup(titles)
  }

  /** `extract_source_info` */
  function ExtractSourceInfo(docs: seq<Passages.Doc>): (r: SourceInfo)
    ensures Dict.Keys(r.pdfSources) == Ordering.Dedup(PdfNames(docs))
    ensures Dict.Keys(r.webSources) == Ordering.Dedup(WebNames(docs))
  {
    var raw := Collect(docs);
    CollectPdfKeys(docs);
    CollectWebKeys(docs);
    Dict.MapValuesGet(raw.pdf, CleanPages, "");
    Dict.MapValuesGet(raw.web, CleanTitles, "");
    SourceInfo(Dict.MapValues(raw.pdf, CleanPages), Dict.MapValues(raw.web, CleanTitles))
  }

  /** Without retrieved passages there is nothing to cite. */
  lemma NoCitations()
    ensures ExtractSourceInfo([]) == SourceInfo([], [])
  {
    var r := ExtractSourceInfo([]);
    assert PdfNames([]) == [] && WebNames([]) == [];
    assert |Dict.Keys(r.pdfSources)| == 0 && |Dict.Keys(r.webSources)| == 0;
  }

  /** Some retrieved passage comes from PDF file `name`. */
  predicate CitesPdf(docs: seq<Passages.Doc>, name: string) {
    exists i | 0 <= i < |docs| :: IsPdf(docs[i]) && PdfName(docs[i]) == name
  }

  /** Some retrieved passage is page `x` (as text) of PDF file `name`. */
  predicate CitesPage(docs: seq<Passages.Doc>, name: string, x: string) {
    exists i | 0 <= i < |docs| :: IsPdf(docs[i]) && PdfName(docs[i]) == name
      && docs[i].meta.page.Some? && x == Strings.IntToString(docs[i].meta.page.value)
  }

  /** Some retrieved passage comes from web source `src`. */
  predicate CitesWeb(docs: seq<Passages.Doc>, src: string) {
    exists i | 0 <= i < |docs| :: !IsPdf(docs[i]) && SourceOf(docs[i]) == src
  }

  /** Some retrieved passage from web source `src` carries title `t`. */
  predicate CitesTitle(docs: seq<Passages.Doc>, src: string, t: Json.Json) {
    exists i | 0 <= i < |docs| :: TitleHit(docs[i], src, t)
  }

  /** A PDF file is cited exactly when one of its passages was retrieved, and
      its entry lists every retrieved page once, as text, in ascending page
      order. */
  lemma PdfCitation(docs: seq<Passages.Doc>, name: string)
    ensures Dict.Get(ExtractSourceInfo(docs).pdfSources, name).Some? <==> CitesPdf(docs, name)
    ensures Dict.Get(ExtractSourceInfo(docs).pdfSources, name).Some? ==>
      var pages := Dict.Get(ExtractSourceInfo(docs).pdfSources, name).value;
      && Ordering.NoDup(pages)
      && Ordering.SortedBy(pages, PageRank)
      && forall x :: x in pages <==> CitesPage(docs, name, x)
  {
    var raw := Collect(docs);
    var e := ExtractSourceInfo(docs);
    assert e.pdfSources == Dict.MapValues(raw.pdf, CleanPages);
    CollectPdfGet(docs, name);
    Dict.MapValuesGet(raw.pdf, CleanPages, name);
    PdfNamesMember(docs, name);
    if name in PdfNames(docs) {
      var ps := PagesOf(docs, name);
      var pages := Dict.Get(e.pdfSources, name).value;
      assert pages == CleanPages(ps);
      forall x ensures x in pages <==> CitesPage(docs, name, x) {
        PageCited(docs, name, x);
      }
    }
  }

  lemma PageCited(docs: seq<Passages.Doc>, name: string, x: string)
    ensures x in PageLabels(PagesOf(docs, name)) <==> CitesPage(docs, name, x)
  {
    var ps := PagesOf(docs, name);
    var labels := PageLabels(ps);
    if x in labels {
      var k :| 0 <= k < |labels| && labels[k] == x;
      PagesOfMember(docs, name, ps[k]);
      var i :| 0 <= i < |docs| && PageHit(docs[i], name, ps[k]);
      assert docs[i].meta.page.Some? && x == Strings.IntToString(docs[i].meta.page.value);
    }
    if CitesPage(docs, name, x) {
      var i :| 0 <= i < |docs| && IsPdf(docs[i]) && PdfName(docs[i]) == name
        && docs[i].meta.page.Some? && x == Strings.IntToString(docs[i].meta.page.value);
      var p := docs[i].meta.page.value;
      assert PageHit(docs[i], name, p);
      PagesOfMember(docs, name, p);
      var k :| 0 <= k < |ps| && ps[k] == p;
      assert labels[k] == x;
    }
  }

  /** A web source is cited exactly when one of its passages was retrieved,
      and its entry lists every retrieved title once. */
  lemma WebCitation(docs: seq<Passages.Doc>, src: string)
    ensures Dict.Get(ExtractSourceInfo(docs).webSources, src).Some? <==> CitesWeb(docs, src)
    ensures Dict.Get(ExtractSourceInfo(docs).webSources, src).Some? ==>
      var titles := Dict.Get(ExtractSourceInfo(docs).webSources, src).value;
      && Ordering.NoDup(titles)
      && forall t :: t in titles <==> CitesTitle(docs, src, t)
  {
    var raw := Collect(docs);
    var e := ExtractSourceInfo(docs);
    assert e.webSources == Dict.MapValues(raw.web, CleanTitles);
    CollectWebGet(docs, src);
    Dict.MapValuesGet(raw.web, CleanTitles, src);
    WebNamesMember(docs, src);
    if src in WebNames(docs) {
      var titles := Dict.Get(e.webSources, src).value;
      assert titles == CleanTitles(TitlesOf(docs, src));
      forall t ensures t in titles <==> CitesTitle(docs, src, t) {
        TitlesOfMember(docs, src, t);
      }
    }
  }
}
