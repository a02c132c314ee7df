/** The management commands that seed the registry: `populate_initial_data`
    loads the scraped corpus file and the PDFs found in `docs/`, and
    `create_sample_pdfs` adds four placeholder PDF records. */
module Seeding {
  import opened Wrappers
  import Strings
  import Dict
  import Json
  import Ordering
  import Registry
  import FileManager
  import Documents

  const CorpusPath := "knowledge_base/corpus_utpl.json"
  const CorpusName := "corpus_becas_utpl"
  const CorpusFileName := "corpus_utpl.json"
  const CorpusDescription := "Corpus de datos de becas UTPL extraído mediante web scraping"
  const SystemUser := "Sistema"

  // ---------------------------------------------------------------------
  // load_json_corpus
  // ---------------------------------------------------------------------

  datatype LoadOutcome = FileMissing | AlreadyLoaded | ReadError(error: string) | Loaded(records: nat)

  /** Reading the corpus file for its record count: a decode error, or a
      value the loader's counting rule cannot measure, is a read error. */
  function ReadCount(env: FileManager.Env, content: string): (r: Result<nat, string>)
    ensures r.Ok? <==> env.parse(content).Ok? && Registry.PopulateRecordsCount(env.parse(content).value).Some?
    ensures r.Ok? ==> r.value == Registry.PopulateRecordsCount(env.parse(content).value).value
  {
    match env.parse(content)
    case Err(e) => Err(e)
    case Ok(j) =>
      match Registry.PopulateRecordsCount(j)
      case None => Err(env.errorText)
      case Some(n) => Ok(n)
  }

  function Named(corpora: seq<Registry.Record>): Option<nat> {
    Registry.FirstWith(corpora, "name", Json.JStr(CorpusName))
  }

  /** What the loaded corpus row holds: the loader's fixed attributes with
      the counted records, the stored file's size, and the file itself. */
  ghost predicate LoadedRow(rec: Registry.Record, disk: Registry.Disk, content: string, n: nat) {
    (forall k | k != "file_size" :: Dict.Get(rec.fields, k) ==
      Dict.Get(Registry.CorpusFields(CorpusName, "becas", CorpusDescription, "1.0", true, n, SystemUser), k)) &&
    Dict.Get(rec.fields, "file_size") == Some(Json.JInt(|content|)) &&
    Dict.Get(disk, rec.file) == Some(content)
  }

  /** Deleting the existing corpus, with its file, before it is re-created. */
  function Unload(repo: FileManager.Repo): (r: FileManager.Repo)
    ensures r.pdfs == repo.pdfs && r.versions == repo.versions && r.nextId == repo.nextId
    ensures Named(repo.corpora).None? ==> r == repo
    ensures Named(repo.corpora).Some? ==> |r.corpora| == |repo.corpora| - 1
  {
    match Named(repo.corpora)
    case None => repo
    case Some(i) =>
      var (rows, disk) := Registry.DeleteRow(repo.corpora, repo.disk, i);
      repo.(corpora := rows, disk := disk)
  }

  /** Creating the corpus row and storing its file under `corpus_json`. */
  function Install(repo: FileManager.Repo, content: string, n: nat): (r: FileManager.Repo)
    ensures |r.corpora| == |repo.corpora| + 1 && r.corpora[..|repo.corpora|] == repo.corpora
    ensures r.pdfs == repo.pdfs && r.versions == repo.versions
    ensures LoadedRow(r.corpora[|repo.corpora|], r.disk, content, n)
  {
    var (disk, path) := FileManager.Store(repo.disk, FileManager.CorpusUploadDir, CorpusFileName, content);
    var fields := Registry.CorpusFields(CorpusName, "becas", CorpusDescription, "1.0", true, n, SystemUser);
    var rec := FileManager.Attach(Registry.Record(repo.nextId, fields, ""), path, content);
    FileManager.AttachFrame(Registry.Record(repo.nextId, fields, ""), path, content);
    repo.(corpora := repo.corpora + [rec], disk := disk, nextId := repo.nextId + 1)
  }

  /** `load_json_corpus`: nothing happens without the corpus file, or when
      the corpus exists and reloading is not forced. The file is read before
      anything is deleted, so a read error leaves everything as it was.
      Otherwise an existing corpus is deleted and the corpus created anew. */
  function LoadJsonCorpus(repo: FileManager.Repo, env: FileManager.Env, file: Option<string>, force: bool)
    : (r: (FileManager.Repo, LoadOutcome))
    ensures file.None? ==> r == (repo, FileMissing)
    ensures file.Some? && Named(repo.corpora).Some? && !force ==> r == (repo, AlreadyLoaded)
    ensures r.1.ReadError? ==> r.0 == repo && file.Some? && ReadCount(env, file.value).Err?
    ensures r.1.Loaded? <==> file.Some? && (Named(repo.corpora).None? || force) && ReadCount(env, file.value).Ok?
    ensures r.1.Loaded? ==>
      |r.0.corpora| > 0 && r.1.records == ReadCount(env, file.value).value &&
      LoadedRow(r.0.corpora[|r.0.corpora| - 1], r.0.disk, file.value, r.1.records) &&
      r.0.pdfs == repo.pdfs && r.0.versions == repo.versions
  {
    match file
    case None => (repo, FileMissing)
    case Some(content) =>
      if Named(repo.corpora).Some? && !force then (repo, AlreadyLoaded)
      else
        match ReadCount(env, content)
        case Err(e) => (repo, ReadError(e))
        case Ok(n) => (Install(Unload(repo), content, n), Loaded(n))
  }

  /** After deleting the existing corpus no row keeps its name, and the
      remaining names stay unique. */
  lemma UnloadClears(repo: FileManager.Repo)
    requires Registry.UniqueNames(repo.corpora)
    ensures Registry.UniqueNames(Unload(repo).corpora)
    ensures forall x | x in Unload(repo).corpora :: Dict.Get(x.fields, "name") != Some(Json.JStr(CorpusName))
  {
    if Named(repo.corpora).Some? {
      var i := Named(repo.corpora).value;
      assert Unload(repo).corpora == repo.corpora[..i] + repo.corpora[i + 1..];
      DropUnique(repo.corpora, i, Json.JStr(CorpusName));
    }
  }

  /** Where the row at position `k` of `rows` without row `i` comes from. */
  lemma DropAt(rows: seq<Registry.Record>, i: nat, k: nat)
    requires i < |rows| && k < |rows| - 1
    ensures (rows[..i] + rows[i + 1..])[k] == rows[if k < i then k else k + 1]
  {
  }

  /** Dropping the one row named `name` from uniquely named rows leaves
      uniquely named rows, none named `name`. */
  lemma DropUnique(rows: seq<Registry.Record>, i: nat, name: Json.Json)
    requires i < |rows| && Registry.UniqueNames(rows)
    requires Dict.Get(rows[i].fields, "name") == Some(name)
    ensures Registry.UniqueNames(rows[..i] + rows[i + 1..])
    ensures forall x | x in rows[..i] + rows[i + 1..] :: Dict.Get(x.fields, "name") != Some(name)
  {
    var rest := rows[..i] + rows[i + 1..];
    forall x | x in rest ensures Dict.Get(x.fields, "name") != Some(name) {
      var k :| 0 <= k < |rest| && rest[k] == x;
      DropAt(rows, i, k);
    }
    forall a, b | 0 <= a < b < |rest|
      ensures Dict.Get(rest[a].fields, "name") != Dict.Get(rest[b].fields, "name")
    {
      DropAt(rows, i, a);
      DropAt(rows, i, b);
    }
  }

  lemma AppendUnique(rows: seq<Registry.Record>, x: Registry.Record)
    requires Registry.UniqueNames(rows)
    requires forall y | y in rows :: Dict.Get(y.fields, "name") != Dict.Get(x.fields, "name")
    ensures Registry.UniqueNames(rows + [x])
  {
    var all := rows + [x];
    forall a, b | 0 <= a < b < |all|
      ensures Dict.Get(all[a].fields, "name") != Dict.Get(all[b].fields, "name")
    {
      if b == |rows| {
        assert all[a] in rows;
      } else {
        assert all[a] == rows[a] && all[b] == rows[b];
      }
    }
  }

  /** A forced reload keeps corpus names unique: the loaded corpus is the only
      one with its name. */
  lemma LoadKeepsNameUnique(repo: FileManager.Repo, env: FileManager.Env, file: Option<string>, force: bool)
    requires Registry.UniqueNames(repo.corpora)
    ensures var r := LoadJsonCorpus(repo, env, file, force);
      Registry.UniqueNames(r.0.corpora) &&
      (r.1.Loaded? ==> Named(r.0.corpora) == Some(|r.0.corpora| - 1))
  {
    var r := LoadJsonCorpus(repo, env, file, force);
    if r.1.Loaded? {
      var rows := Unload(repo).corpora;
      UnloadClears(repo);
      var last := r.0.corpora[|rows|];
      assert r.0.corpora == rows + [last];
      Dict.GetAt(Registry.CorpusFields(CorpusName, "becas", CorpusDescription, "1.0", true, r.1.records, SystemUser), 0);
      assert Dict.Get(last.fields, "name") == Some(Json.JStr(CorpusName));
      AppendUnique(rows, last);
      FirstWithLast(rows, last, "name", Json.JStr(CorpusName));
    }
  }

  lemma {:induction false} FirstWithLast(rows: seq<Registry.Record>, x: Registry.Record, attr: string, value: Json.Json)
    requires forall y | y in rows :: Dict.Get(y.fields, attr) != Some(value)
    requires Dict.Get(x.fields, attr) == Some(value)
    ensures Registry.FirstWith(rows + [x], attr, value) == Some(|rows|)
  {
    if |rows| > 0 {
      assert (rows + [x])[1..] == rows[1..] + [x];
      FirstWithLast(rows[1..], x, attr, value);
    }
  }

  /** Running the loader again without forcing leaves the loaded corpus. */
  lemma LoadTwice(repo: FileManager.Repo, env: FileManager.Env, file: Option<string>, force: bool)
    ensures var r := LoadJsonCorpus(repo, env, file, force);
      r.1.Loaded? ==> LoadJsonCorpus(r.0, env, file, false) == (r.0, AlreadyLoaded)
  {
    var r := LoadJsonCorpus(repo, env, file, force);
    if r.1.Loaded? {
      var last := r.0.corpora[|r.0.corpora| - 1];
      Dict.GetAt(Registry.CorpusFields(CorpusName, "becas", CorpusDescription, "1.0", true, r.1.records, SystemUser), 0);
      assert Dict.Get(last.fields, "name") == Some(Json.JStr(CorpusName));
      assert last in r.0.corpora;
    }
  }

  // ---------------------------------------------------------------------
  // load_pdf_documents
  // ---------------------------------------------------------------------

  const ImportPrefix := "Documento importado automáticamente desde "

  /** `Path(name).stem.replace('_', ' ').title()` */
  function DocTitle(name: string): string {
    Strings.Title(Strings.ReplaceChar(Strings.Stem(name), '_', ' '))
  }

  lemma {:induction false} TitleFromKeeps(s: string, prev: bool, c: char, i: int)
    requires 0 <= i < |s| && !Strings.IsCased(c) && !Strings.IsCased(s[i]) && s[i] != c
    ensures Strings.TitleFrom(s, prev)[i] != c
  {
    if i > 0 {
      TitleFromKeeps(s[1..], Strings.IsCased(s[0]), c, i - 1);
    }
  }

  lemma {:induction false} TitleFromCased(s: string, prev: bool, i: int)
    requires 0 <= i < |s| && Strings.IsCased(s[i])
    ensures Strings.IsCased(Strings.TitleFrom(s, prev)[i])
  {
    if i > 0 {
      TitleFromCased(s[1..], Strings.IsCased(s[0]), i - 1);
    }
  }

  /** A derived title is as long as the file's stem and has no underscore. */
  lemma DocTitleShape(name: string)
    ensures |DocTitle(name)| == |Strings.Stem(name)|
    ensures '_' !in DocTitle(name)
  {
    var s := Strings.ReplaceChar(Strings.Stem(name), '_', ' ');
    forall i | 0 <= i < |s| ensures DocTitle(name)[i] != '_' {
      if Strings.IsCased(s[i]) {
        TitleFromCased(s, false, i);
      } else {
        TitleFromKeeps(s, false, '_', i);
      }
    }
  }

  /** `title()` at one position: a cased character is upper-cased when no
      cased character precedes it and lower-cased otherwise; any other
      character is kept. */
  lemma {:induction false} TitleFromAt(s: string, prev: bool, i: int)
    requires 0 <= i < |s|
    ensures Strings.TitleFrom(s, prev)[i] ==
      if !Strings.IsCased(s[i]) then s[i]
      else if (if i == 0 then prev else Strings.IsCased(s[i - 1])) then Strings.LowerChar(s[i])
      else Strings.UpperChar(s[i])
  {
    if i > 0 {
      TitleFromAt(s[1..], Strings.IsCased(s[0]), i - 1);
      assert s[1..][i - 1] == s[i];
      if i > 1 {
        assert s[1..][i - 2] == s[i - 1];
      }
    }
  }

  /** The title derived from a file name, position by position: underscores
      and spaces of the stem become spaces and nothing else does, a letter
      opening a word is upper case (unless it is one of ß, ª, º), a letter
      inside a word lower case, and every other character is kept. */
  lemma DocTitleAt(name: string, i: int)
    requires 0 <= i < |Strings.Stem(name)|
    ensures var t := Strings.Stem(name);
      DocTitle(name)[i] ==
        if t[i] == '_' || t[i] == ' ' then ' '
        else if !Strings.IsCased(t[i]) then t[i]
        else if i > 0 && Strings.IsCased(t[i - 1]) then Strings.LowerChar(t[i])
        else Strings.UpperChar(t[i])
    ensures var t := Strings.Stem(name);
      (DocTitle(name)[i] == ' ' <==> t[i] == '_' || t[i] == ' ') &&
      (Strings.IsCased(t[i]) && !Strings.KeepsTitleCase(t[i]) && (i == 0 || !Strings.IsCased(t[i - 1])) ==>
        Strings.IsUpper(DocTitle(name)[i]))
  {
    var t := Strings.Stem(name);
    var s := Strings.ReplaceChar(t, '_', ' ');
    TitleFromAt(s, false, i);
  }

  /** `docs_dir.glob('*.pdf')` is case-sensitive. */
  predicate IsGlobPdf(name: string) {
    Strings.EndsWith(name, ".pdf")
  }

  /** The document service lists every file with an upper-case `.PDF`
      extension, and the loader's pattern picks up none of them. */
  lemma GlobMissesUpperCase(stem: string)
    ensures Documents.IsPdfName(stem + ".PDF") && !IsGlobPdf(stem + ".PDF")
  {
    var name := stem + ".PDF";
    assert name[|stem|..] == ".PDF";
    assert name[|name| - 4] == '.' && name[|name| - 3] == 'P' && name[|name| - 2] == 'D' && name[|name| - 1] == 'F';
    Documents.PdfNameAnyCase(name);
    assert name[|name| - 4..][1] == 'P';
  }

  function HasTitle(rows: seq<Registry.Record>, title: string): bool {
    Registry.FirstWith(rows, "title", Json.JStr(title)).Some?
  }

  lemma HasTitleAppend(rows: seq<Registry.Record>, more: seq<Registry.Record>, title: string)
    ensures HasTitle(rows + more, title) <==> HasTitle(rows, title) || HasTitle(more, title)
  {
    var v := Some(Json.JStr(title));
    if HasTitle(rows, title) {
      var x :| x in rows && Dict.Get(x.fields, "title") == v;
      assert x in rows + more;
    } else if HasTitle(more, title) {
      var x :| x in more && Dict.Get(x.fields, "title") == v;
      assert x in rows + more;
    } else {
      forall x | x in rows + more ensures Dict.Get(x.fields, "title") != v {
        assert x in rows || x in more;
      }
    }
  }

  /** The row a loaded PDF gets: a public, published guide. */
  function ImportedRow(id: nat, name: string, path: string, content: string): Registry.Record {
    FileManager.Attach(Registry.Record(id, Registry.PdfFields(DocTitle(name), "guide", ImportPrefix + name, "",
                                                               "published", "", true, 0, SystemUser), ""), path, content)
  }

  /** One iteration of the loop over the PDFs of `docs`: an existing title is kept
      unless forced; under force the newest document with that title is
      deleted first (and stays deleted if the file then cannot be opened); a
      readable file is loaded. */
  function LoadPdf(repo: FileManager.Repo, name: string, content: Option<string>, force: bool)
    : (r: (FileManager.Repo, bool))
    ensures HasTitle(repo.pdfs, DocTitle(name)) && !force ==> r == (repo, false)
    ensures r.1 <==> content.Some? && (force || !HasTitle(repo.pdfs, DocTitle(name)))
    ensures r.1 ==>
      |r.0.pdfs| > 0 && r.0.pdfs[|r.0.pdfs| - 1].file in Dict.Keys(r.0.disk) &&
      Dict.Get(r.0.disk, r.0.pdfs[|r.0.pdfs| - 1].file) == content &&
      HasTitle(r.0.pdfs, DocTitle(name))
    ensures !force ==> r.0.pdfs == repo.pdfs + (if r.1 then [r.0.pdfs[|r.0.pdfs| - 1]] else [])
    ensures force ==> r.0.pdfs == Evict(repo, DocTitle(name)).0 + (if r.1 then [r.0.pdfs[|r.0.pdfs| - 1]] else [])
    ensures r.0.corpora == repo.corpora && r.0.versions == repo.versions
  {
    var title := DocTitle(name);
    if HasTitle(repo.pdfs, title) && !force then (repo, false)
    else
      var (rows, disk) := Evict(repo, title);
      match content
      case None => (repo.(pdfs := rows, disk := disk), false)
      case Some(c) => (Import(repo, rows, disk, name, c), true)
  }

  /** `existing.delete()` under force: the newest document with the title
      goes, with its file; without one nothing changes. */
  function Evict(repo: FileManager.Repo, title: string): (r: (seq<Registry.Record>, Registry.Disk))
    ensures Registry.LastWith(repo.pdfs, "title", Json.JStr(title)).None? ==> r == (repo.pdfs, repo.disk)
    ensures Registry.LastWith(repo.pdfs, "title", Json.JStr(title)).Some? ==>
      var k := Registry.LastWith(repo.pdfs, "title", Json.JStr(title)).value;
      r.0 == repo.pdfs[..k] + repo.pdfs[k + 1..] &&
      Dict.Get(repo.pdfs[k].fields, "title") == Some(Json.JStr(title)) &&
      (forall j | k < j < |repo.pdfs| :: Dict.Get(repo.pdfs[j].fields, "title") != Some(Json.JStr(title))) &&
      (repo.pdfs[k].file != "" ==> repo.pdfs[k].file !in Dict.Keys(r.1))
  {
    var m := Registry.LastWith(repo.pdfs, "title", Json.JStr(title));
    if m.None? then (repo.pdfs, repo.disk)
    else
      var k := m.value;
      assert k < |repo.pdfs| && Dict.Get(repo.pdfs[k].fields, "title") == Some(Json.JStr(title));
      Registry.DeleteRow(repo.pdfs, repo.disk, k)
  }

  /** Storing a readable PDF and appending its row after `rows`. */
  function Import(repo: FileManager.Repo, rows: seq<Registry.Record>, disk: Registry.Disk, name: string, c: string)
    : (r: FileManager.Repo)
    ensures r.corpora == repo.corpora && r.versions == repo.versions
    ensures |r.pdfs| == |rows| + 1 && r.pdfs == rows + [r.pdfs[|rows|]]
    ensures r.pdfs[|rows|].file in Dict.Keys(r.disk) && Dict.Get(r.disk, r.pdfs[|rows|].file) == Some(c)
    ensures HasTitle(r.pdfs, DocTitle(name))
  {
    var (disk', path) := FileManager.Store(disk, FileManager.PdfUploadDir, name, c);
    var rec := ImportedRow(repo.nextId, name, path, c);
    ImportedTitle(repo.nextId, name, path, c);
    FirstWithLastOrEarlier(rows, rec, "title", Json.JStr(DocTitle(name)));
    repo.(pdfs := rows + [rec], disk := disk', nextId := repo.nextId + 1)
  }

  lemma ImportedTitle(id: nat, name: string, path: string, content: string)
    ensures Dict.Get(ImportedRow(id, name, path, content).fields, "title") == Some(Json.JStr(DocTitle(name)))
  {
    var fields := Registry.PdfFields(DocTitle(name), "guide", ImportPrefix + name, "", "published", "", true, 0, SystemUser);
    Dict.GetAt(fields, 0);
    Dict.PutOther(fields, "file_size", Json.JInt(|content|), "title");
  }

  lemma FirstWithLastOrEarlier(rows: seq<Registry.Record>, x: Registry.Record, attr: string, value: Json.Json)
    requires Dict.Get(x.fields, attr) == Some(value)
    ensures Registry.FirstWith(rows + [x], attr, value).Some?
  {
    assert x in rows + [x];
  }

  /** The PDFs of `docs/` the loader picks up, in directory order. */
  function GlobPdfs(files: seq<(string, Option<string>)>): seq<(string, Option<string>)> {
    Ordering.Filter(files, (e: (string, Option<string>)) => IsGlobPdf(e.0))
  }

  /** Every readable PDF among the first `n` has its title in `rows`. */
  ghost predicate TitlesLoaded(rows: seq<Registry.Record>, pdfs: seq<(string, Option<string>)>, n: nat)
    requires n <= |pdfs|
  {
    forall k | 0 <= k < n && pdfs[k].1.Some? :: HasTitle(rows, DocTitle(pdfs[k].0))
  }

  predicate AllReadable(pdfs: seq<(string, Option<string>)>) {
    forall e | e in pdfs :: e.1.Some?
  }

  /** Without force, one iteration keeps the titles already loaded and adds
      the current file's when it is readable. */
  lemma LoadPdfKeepsTitles(repo: FileManager.Repo, pdfs: seq<(string, Option<string>)>, i: nat)
    requires i < |pdfs| && TitlesLoaded(repo.pdfs, pdfs, i)
    ensures TitlesLoaded(LoadPdf(repo, pdfs[i].0, pdfs[i].1, false).0.pdfs, pdfs, i + 1)
  {
    var r := LoadPdf(repo, pdfs[i].0, pdfs[i].1, false);
    var added := if r.1 then [r.0.pdfs[|r.0.pdfs| - 1]] else [];
    if !r.1 && pdfs[i].1.Some? {
      HasTitleAppend(repo.pdfs, added, DocTitle(pdfs[i].0));
    }
    TitlesAppend(repo.pdfs, added, pdfs, i);
  }

  /** One iteration without force, against the rows there were before the loop. */
  lemma KeepStep(base: seq<Registry.Record>, cur: FileManager.Repo, pdfs: seq<(string, Option<string>)>,
                 i: nat, loaded: nat)
    requires i < |pdfs| && TitlesLoaded(cur.pdfs, pdfs, i)
    requires |cur.pdfs| == |base| + loaded && cur.pdfs[..|base|] == base
    ensures var r := LoadPdf(cur, pdfs[i].0, pdfs[i].1, false);
      |r.0.pdfs| == |base| + loaded + (if r.1 then 1 else 0) && r.0.pdfs[..|base|] == base &&
      TitlesLoaded(r.0.pdfs, pdfs, i + 1)
  {
    var r := LoadPdf(cur, pdfs[i].0, pdfs[i].1, false);
    LoadPdfKeepsTitles(cur, pdfs, i);
    if r.1 {
      assert r.0.pdfs[..|base|] == cur.pdfs[..|base|];
    }
  }

  lemma TitlesAppend(rows: seq<Registry.Record>, added: seq<Registry.Record>, pdfs: seq<(string, Option<string>)>,
                     i: nat)
    requires i < |pdfs| && TitlesLoaded(rows, pdfs, i)
    requires pdfs[i].1.Some? ==> HasTitle(rows + added, DocTitle(pdfs[i].0))
    ensures TitlesLoaded(rows + added, pdfs, i + 1)
  {
    forall k | 0 <= k < i && pdfs[k].1.Some? ensures HasTitle(rows + added, DocTitle(pdfs[k].0)) {
      HasTitleAppend(rows, added, DocTitle(pdfs[k].0));
    }
  }

  /** `load_pdf_documents`: a missing `docs/` does nothing; otherwise each
      PDF is loaded in turn and `loaded` counts the files actually loaded.
      Without force, existing rows are never touched and every readable PDF's
      title is present afterwards. */
  method LoadPdfDocuments(repo: FileManager.Repo, docs: Option<seq<(string, Option<string>)>>, force: bool)
    returns (repo': FileManager.Repo, loaded: nat)
    ensures docs.None? ==> repo' == repo && loaded == 0
    ensures docs.Some? ==> loaded <= |GlobPdfs(docs.value)|
    ensures docs.Some? && force && AllReadable(GlobPdfs(docs.value)) ==> loaded == |GlobPdfs(docs.value)|
    ensures !force ==> |repo'.pdfs| == |repo.pdfs| + loaded && repo'.pdfs[..|repo.pdfs|] == repo.pdfs
    ensures docs.Some? && !force ==> TitlesLoaded(repo'.pdfs, GlobPdfs(docs.value), |GlobPdfs(docs.value)|)
    ensures repo'.corpora == repo.corpora && repo'.versions == repo.versions
  {
    repo' := repo;
    loaded := 0;
    if docs.None? {
      return;
    }
    var pdfs := GlobPdfs(docs.value);
    var i := 0;
    while i < |pdfs|
      invariant 0 <= i <= |pdfs|
      invariant loaded <= i
      invariant force && AllReadable(pdfs) ==> loaded == i
      invariant !force ==> |repo'.pdfs| == |repo.pdfs| + loaded && repo'.pdfs[..|repo.pdfs|] == repo.pdfs
      invariant !force ==> TitlesLoaded(repo'.pdfs, pdfs, i)
      invariant repo'.corpora == repo.corpora && repo'.versions == repo.versions
    {
      if !force {
        KeepStep(repo.pdfs, repo', pdfs, i, loaded);
      }
      if force && AllReadable(pdfs) {
        assert pdfs[i] in pdfs;
      }
      var (next, ok) := LoadPdf(repo', pdfs[i].0, pdfs[i].1, force);
      repo' := next;
      if ok {
        loaded := loaded + 1;
      }
      i := i + 1;
    }
  }

  // ---------------------------------------------------------------------
  // create_sample_pdfs
  // ---------------------------------------------------------------------

  datatype Sample = Sample(title: string, documentType: string, description: string,
                           version: string, tags: string, status: string)

  const Samples: seq<Sample> := [
    Sample("Guía de Becas UTPL 2024", "guide",
           "Guía completa sobre las becas disponibles en la UTPL, requisitos y proceso de solicitud",
           "1.0", "becas,utpl,guía,estudiantes,2024", "draft"),
    Sample("Reglamento de Becas UTPL", "regulations",
           "Reglamento oficial que regula el sistema de becas de la UTPL",
           "2024", "becas,reglamento,normativa,utpl", "draft"),
    Sample("Preguntas Frecuentes - Becas UTPL", "guide",
           "Respuestas a las preguntas más comunes sobre el sistema de becas UTPL",
           "1.0", "becas,faq,preguntas,respuestas,ayuda", "draft"),
    Sample("Formulario de Solicitud de Beca", "form",
           "Formulario oficial para solicitar becas en la UTPL",
           "2024-1", "becas,formulario,solicitud", "draft")
  ]

  /** The attributes of a sample record: private, without a file, created
      by the system user. */
  function SampleFields(s: Sample): seq<(string, Json.Json)> {
    Registry.PdfFields(s.title, s.documentType, s.description, s.version, s.status, s.tags, false, 0, SystemUser)
  }

  lemma SampleTitle(s: Sample)
    ensures Dict.Get(SampleFields(s), "title") == Some(Json.JStr(s.title))
  {
    Dict.GetAt(SampleFields(s), 0);
  }

  /** `create_sample_records` over a list of samples: each sample is created
      when no PDF record has its title yet; the count is the number of rows
      created, all appended after the existing ones. */
  function CreateSamples(repo: FileManager.Repo, samples: seq<Sample>): (r: (FileManager.Repo, nat))
    ensures |r.0.pdfs| == |repo.pdfs| + r.1 && r.0.pdfs[..|repo.pdfs|] == repo.pdfs
    ensures r.0.corpora == repo.corpora && r.0.versions == repo.versions && r.0.disk == repo.disk
  {
    if |samples| == 0 then (repo, 0)
    else
      var (repo1, n) := CreateSamples(repo, samples[..|samples| - 1]);
      var s := samples[|samples| - 1];
      if HasTitle(repo1.pdfs, s.title) then (repo1, n)
      else
        var row := Registry.Record(repo1.nextId, SampleFields(s), "");
        (repo1.(pdfs := repo1.pdfs + [row], nextId := repo1.nextId + 1), n + 1)
  }

  /** The command itself, over its four samples. */
  function CreateSampleRecords(repo: FileManager.Repo): (r: (FileManager.Repo, nat))
    ensures |r.0.pdfs| == |repo.pdfs| + r.1 && r.1 <= |Samples|
  {
    CreateSamplesBound(repo, Samples);
    CreateSamples(repo, Samples)
  }

  lemma {:induction false} CreateSamplesBound(repo: FileManager.Repo, samples: seq<Sample>)
    ensures CreateSamples(repo, samples).1 <= |samples|
  {
    if |samples| > 0 {
      CreateSamplesBound(repo, samples[..|samples| - 1]);
    }
  }

  /** Appending a sample's row keeps every earlier sample's title present,
      adds this one's, and it was absent before the run as well. */
  lemma CreateStep(before: seq<Registry.Record>, rows: seq<Registry.Record>, init: seq<Sample>, s: Sample,
                   row: Registry.Record)
    requires |before| <= |rows| && rows[..|before|] == before
    requires forall k | 0 <= k < |init| :: HasTitle(rows, init[k].title)
    requires !HasTitle(rows, s.title)
    requires row.fields == SampleFields(s)
    ensures forall k | 0 <= k < |init| :: HasTitle(rows + [row], init[k].title)
    ensures HasTitle(rows + [row], s.title)
    ensures !HasTitle(before, s.title)
  {
    SampleTitle(s);
    FirstWithLastOrEarlier(rows, row, "title", Json.JStr(s.title));
    forall k | 0 <= k < |init| ensures HasTitle(rows + [row], init[k].title) {
      HasTitleAppend(rows, [row], init[k].title);
    }
    assert rows == before + rows[|before|..];
    HasTitleAppend(before, rows[|before|..], s.title);
  }

  /** Afterwards every sample's title is present. */
  lemma {:induction false} SamplesPresent(repo: FileManager.Repo, samples: seq<Sample>)
    ensures forall k | 0 <= k < |samples| :: HasTitle(CreateSamples(repo, samples).0.pdfs, samples[k].title)
  {
    if |samples| > 0 {
      SamplesPresent(repo, samples[..|samples| - 1]);
      CreateSamplesLast(repo, samples);
      PresentStep(CreateSamples(repo, samples[..|samples| - 1]).0.pdfs, CreateSamples(repo, samples).0.pdfs,
                  samples[..|samples| - 1], samples,
                  CreateSamples(repo, samples[..|samples| - 1]).0.nextId);
    }
  }

  lemma PresentStep(rows1: seq<Registry.Record>, rows: seq<Registry.Record>, init: seq<Sample>, samples: seq<Sample>,
                    id: nat)
    requires |samples| > 0 && init == samples[..|samples| - 1]
    requires forall k | 0 <= k < |init| :: HasTitle(rows1, init[k].title)
    requires rows == if HasTitle(rows1, samples[|samples| - 1].title) then rows1
                     else rows1 + [Registry.Record(id, SampleFields(samples[|samples| - 1]), "")]
    ensures forall k | 0 <= k < |samples| :: HasTitle(rows, samples[k].title)
  {
    var s := samples[|samples| - 1];
    var rec := Registry.Record(id, SampleFields(s), "");
    forall k | 0 <= k < |samples| ensures HasTitle(rows, samples[k].title) {
      if k < |init| {
        assert samples[k] == init[k];
        if !HasTitle(rows1, s.title) {
          HasTitleAppend(rows1, [rec], init[k].title);
        }
      } else if !HasTitle(rows1, s.title) {
        SampleTitle(s);
        FirstWithLastOrEarlier(rows1, rec, "title", Json.JStr(s.title));
      }
    }
  }

  /** A row as the command creates it: a file-less sample whose title no PDF
      record had before the run. */
  ghost predicate FromAbsentSample(x: Registry.Record, before: seq<Registry.Record>, samples: seq<Sample>) {
    x.file == "" &&
    exists k | 0 <= k < |samples| :: x.fields == SampleFields(samples[k]) && !HasTitle(before, samples[k].title)
  }

  lemma FromAbsentSampleInit(x: Registry.Record, before: seq<Registry.Record>, samples: seq<Sample>)
    requires |samples| > 0 && FromAbsentSample(x, before, samples[..|samples| - 1])
    ensures FromAbsentSample(x, before, samples)
  {
    var k :| 0 <= k < |samples| - 1 && x.fields == SampleFields(samples[..|samples| - 1][k]) &&
              !HasTitle(before, samples[..|samples| - 1][k].title);
    assert samples[..|samples| - 1][k] == samples[k];
  }

  /** One sample's step keeps every created row traceable to a sample whose
      title was absent before the run. */
  lemma NewRowsStep(before: seq<Registry.Record>, rows1: seq<Registry.Record>, rows: seq<Registry.Record>,
                    init: seq<Sample>, samples: seq<Sample>, id: nat)
    requires |samples| > 0 && init == samples[..|samples| - 1]
    requires |before| <= |rows1| && rows1[..|before|] == before
    requires forall k | 0 <= k < |init| :: HasTitle(rows1, init[k].title)
    requires forall j | |before| <= j < |rows1| :: FromAbsentSample(rows1[j], before, init)
    requires rows == if HasTitle(rows1, samples[|samples| - 1].title) then rows1
                     else rows1 + [Registry.Record(id, SampleFields(samples[|samples| - 1]), "")]
    ensures forall j | |before| <= j < |rows| :: FromAbsentSample(rows[j], before, samples)
  {
    var s := samples[|samples| - 1];
    forall j | |before| <= j < |rows1| ensures FromAbsentSample(rows[j], before, samples) {
      assert rows[j] == rows1[j];
      FromAbsentSampleInit(rows1[j], before, samples);
    }
    if !HasTitle(rows1, s.title) {
      var row := Registry.Record(id, SampleFields(s), "");
      CreateStep(before, rows1, init, s, row);
      assert rows[|rows1|] == row;
    }
  }

  lemma CreateSamplesLast(repo: FileManager.Repo, samples: seq<Sample>)
    requires |samples| > 0
    ensures CreateSamples(repo, samples).0.pdfs ==
      if HasTitle(CreateSamples(repo, samples[..|samples| - 1]).0.pdfs, samples[|samples| - 1].title)
      then CreateSamples(repo, samples[..|samples| - 1]).0.pdfs
      else CreateSamples(repo, samples[..|samples| - 1]).0.pdfs +
           [Registry.Record(CreateSamples(repo, samples[..|samples| - 1]).0.nextId, SampleFields(samples[|samples| - 1]), "")]
  {
  }

  /** Every row created comes from a sample whose title was absent before. */
  lemma {:induction false} SamplesNewRows(repo: FileManager.Repo, samples: seq<Sample>)
    ensures forall j | |repo.pdfs| <= j < |CreateSamples(repo, samples).0.pdfs| ::
      FromAbsentSample(CreateSamples(repo, samples).0.pdfs[j], repo.pdfs, samples)
  {
    if |samples| > 0 {
      var init := samples[..|samples| - 1];
      SamplesNewRows(repo, init);
      SamplesPresent(repo, init);
      CreateSamplesLast(repo, samples);
      NewRowsStep(repo.pdfs, CreateSamples(repo, init).0.pdfs, CreateSamples(repo, samples).0.pdfs, init, samples,
                  CreateSamples(repo, init).0.nextId);
    }
  }

  /** A sample is created exactly when no PDF record had its title before. */
  lemma SampleCreatedIff(repo: FileManager.Repo, samples: seq<Sample>, k: nat)
    requires k < |samples|
    ensures HasTitle(CreateSamples(repo, samples).0.pdfs[|repo.pdfs|..], samples[k].title) <==>
            !HasTitle(repo.pdfs, samples[k].title)
  {
    SamplesPresent(repo, samples);
    SamplesNewRows(repo, samples);
    CreatedIffRows(repo.pdfs, CreateSamples(repo, samples).0.pdfs, samples, k);
  }

  lemma CreatedIffRows(before: seq<Registry.Record>, rows: seq<Registry.Record>, samples: seq<Sample>, k: nat)
    requires k < |samples| && |before| <= |rows| && rows[..|before|] == before
    requires forall i | 0 <= i < |samples| :: HasTitle(rows, samples[i].title)
    requires forall j | |before| <= j < |rows| :: FromAbsentSample(rows[j], before, samples)
    ensures HasTitle(rows[|before|..], samples[k].title) <==> !HasTitle(before, samples[k].title)
  {
    var t := samples[k].title;
    var created := rows[|before|..];
    assert rows == before + created;
    HasTitleAppend(before, created, t);
    if HasTitle(created, t) {
      var i := Registry.FirstWith(created, "title", Json.JStr(t)).value;
      assert created[i] == rows[|before| + i];
      NewTitleAbsent(created[i], before, samples, t);
    }
  }

  lemma NewTitleAbsent(x: Registry.Record, before: seq<Registry.Record>, samples: seq<Sample>, t: string)
    requires FromAbsentSample(x, before, samples)
    requires Dict.Get(x.fields, "title") == Some(Json.JStr(t))
    ensures !HasTitle(before, t)
  {
    var k :| 0 <= k < |samples| && x.fields == SampleFields(samples[k]) && !HasTitle(before, samples[k].title);
    SampleTitle(samples[k]);
  }

  /** With every title present, the command creates nothing. */
  lemma {:induction false} SamplesIdempotent(repo: FileManager.Repo, samples: seq<Sample>)
    requires forall k | 0 <= k < |samples| :: HasTitle(repo.pdfs, samples[k].title)
    ensures CreateSamples(repo, samples) == (repo, 0)
  {
    if |samples| > 0 {
      SamplesIdempotent(repo, samples[..|samples| - 1]);
      assert samples[|samples| - 1] == samples[|samples| - 1];
    }
  }

  /** Running the command twice creates nothing the second time. */
  lemma CreateSampleRecordsTwice(repo: FileManager.Repo)
    ensures var r := CreateSampleRecords(repo);
      CreateSampleRecords(r.0) == (r.0, 0)
  {
    SamplesPresent(repo, Samples);
    SamplesIdempotent(CreateSampleRecords(repo).0, Samples);
  }
}
