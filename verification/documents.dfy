/** The PDF folder service: listing the PDFs of the documents directory,
    saving an uploaded batch, deleting one file and summarising the folder. */
module Documents {
  import opened Wrappers
  import Strings
  import Dict
  import Ordering

  const DocsDir := "docs"
  const PdfSuffix := ".pdf"

  /** The documents directory: whether it exists, and its entries (file
      name and size in bytes) in listing order. */
  datatype Folder = Folder(present: bool, files: seq<(string, nat)>)

  /** `DocumentService.__init__` creates the directory when it is missing. */
  function Open(f: Folder): (r: Folder)
    ensures r.present && r.files == f.files
  {
    Folder(true, f.files)
  }

  // ---------------------------------------------------------------------
  // Listing

  /** `f.lower().endswith('.pdf')` */
  predicate IsPdfName(n: string) {
    Strings.EndsWith(Strings.Lower(n), PdfSuffix)
  }

  /** The suffix test ignores the case of the extension and nothing else. */
  lemma PdfNameAnyCase(n: string)
    ensures IsPdfName(n) <==>
      && |n| >= 4
      && n[|n| - 4] == '.'
      && (n[|n| - 3] == 'p' || n[|n| - 3] == 'P')
      && (n[|n| - 2] == 'd' || n[|n| - 2] == 'D')
      && (n[|n| - 1] == 'f' || n[|n| - 1] == 'F')
  {
    var l := Strings.Lower(n);
    if |n| >= 4 {
      assert l[|l| - 4..] == [l[|n| - 4], l[|n| - 3], l[|n| - 2], l[|n| - 1]];
    }
  }

  /** `get_existing_documents` */
  function GetExistingDocuments(f: Folder): (r: seq<string>)
    ensures !f.present ==> r == []
    ensures f.present ==> forall n | n in r :: n in Dict.Keys(f.files) && IsPdfName(n)
    ensures f.present ==> forall n | n in Dict.Keys(f.files) && IsPdfName(n) :: n in r
  {
    if !f.present then [] else Ordering.Filter(Dict.Keys(f.files), IsPdfName)
  }

  // ---------------------------------------------------------------------
  // Saving a batch

  /** An uploaded file: its name, its size, and the error writing it raises,
      if any. */
  datatype Upload = Upload(name: string, size: nat, failure: Option<string>)

  datatype SaveReport = SaveReport(saved: seq<string>, skipped: seq<string>, errors: seq<string>)

  function SaveError(name: string, e: string): string {
    "Error al guardar " + name + ": " + e
  }

  /** Where one upload ends up, judged against the snapshot of the folder. */
  function Classify(r: SaveReport, snapshot: seq<string>, u: Upload): SaveReport {
    if u.name in snapshot then r.(skipped := r.skipped + [u.name])
    else if u.failure.Some? then r.(errors := r.errors + [SaveError(u.name, u.failure.value)])
    else r.(saved := r.saved + [u.name])
  }

  /** The reference partition of a batch. */
  function Partition(snapshot: seq<string>, us: seq<Upload>): (r: SaveReport)
    ensures |r.saved| + |r.skipped| + |r.errors| == |us|
  {
    if |us| == 0 then SaveReport([], [], [])
    else Classify(Partition(snapshot, us[..|us| - 1]), snapshot, us[|us| - 1])
  }

  /** The (name, size) pairs the batch writes, in order. */
  function Written(snapshot: seq<string>, us: seq<Upload>): seq<(string, nat)> {
    if |us| == 0 then []
    else
      var u := us[|us| - 1];
      Written(snapshot, us[..|us| - 1])
        + (if u.name !in snapshot && u.failure.None? then [(u.name, u.size)] else [])
  }

  /** The names written are the names reported as saved. */
  lemma {:induction false} WrittenNames(snapshot: seq<string>, us: seq<Upload>)
    ensures Dict.Keys(Written(snapshot, us)) == Partition(snapshot, us).saved
  {
    if |us| > 0 {
      var init := us[..|us| - 1];
      WrittenNames(snapshot, init);
      var u := us[|us| - 1];
      if u.name !in snapshot && u.failure.None? {
        assert Dict.Keys(Written(snapshot, init) + [(u.name, u.size)])
            == Dict.Keys(Written(snapshot, init)) + [u.name];
      }
    }
  }

  /** `save_uploaded_files`: the snapshot of PDFs is taken once, before the
      loop; a name in it is skipped, any other file is written (replacing a
      file of the same name) or reported as an error. */
  method SaveUploadedFiles(f: Folder, us: seq<Upload>) returns (f': Folder, report: SaveReport)
    ensures report == Partition(GetExistingDocuments(f), us)
    ensures f'.files == Dict.PutAll(f.files, Written(GetExistingDocuments(f), us))
    ensures f'.present == (f.present || |report.saved| > 0)
  {
    f', report := SaveAgainst(f, GetExistingDocuments(f), us);
  }

  /** The loop of `save_uploaded_files` against a fixed snapshot. */
  method SaveAgainst(f: Folder, snapshot: seq<string>, us: seq<Upload>) returns (f': Folder, report: SaveReport)
    ensures report == Partition(snapshot, us)
    ensures f'.files == Dict.PutAll(f.files, Written(snapshot, us))
    ensures f'.present == (f.present || |report.saved| > 0)
  {
    report := SaveReport([], [], []);
    f' := f;
    var i := 0;
    while i < |us|
      invariant 0 <= i <= |us|
      invariant report == Partition(snapshot, us[..i])
      invariant f'.files == Dict.PutAll(f.files, Written(snapshot, us[..i]))
      invariant f'.present == (f.present || |report.saved| > 0)
    {
      var u := us[i];
      SaveLoopStep(f, f', report, snapshot, us, i);
      if u.name !in snapshot && u.failure.None? {
        f' := Folder(true, Dict.Put(f'.files, u.name, u.size));
      }
      report := Classify(report, snapshot, u);
      i := i + 1;
    }
    assert us[..i] == us;
  }

  /** One iteration of the loop keeps its invariant. */
  lemma SaveLoopStep(f: Folder, cur: Folder, report: SaveReport, snapshot: seq<string>, us: seq<Upload>, i: int)
    requires 0 <= i < |us|
    requires report == Partition(snapshot, us[..i])
    requires cur.files == Dict.PutAll(f.files, Written(snapshot, us[..i]))
    requires cur.present == (f.present || |report.saved| > 0)
    ensures var u := us[i];
      var next := if u.name !in snapshot && u.failure.None? then Folder(true, Dict.Put(cur.files, u.name, u.size)) else cur;
      var report' := Classify(report, snapshot, u);
      && report' == Partition(snapshot, us[..i + 1])
      && next.files == Dict.PutAll(f.files, Written(snapshot, us[..i + 1]))
      && next.present == (f.present || |report'.saved| > 0)
  {
    var u := us[i];
    SaveStep(snapshot, us, i);
    if u.name !in snapshot && u.failure.None? {
      Dict.PutAllSnoc(f.files, Written(snapshot, us[..i]), u.name, u.size);
    } else {
      assert Written(snapshot, us[..i + 1]) == Written(snapshot, us[..i]);
    }
  }

  lemma SaveStep(snapshot: seq<string>, us: seq<Upload>, i: int)
    requires 0 <= i < |us|
    ensures Partition(snapshot, us[..i + 1]) == Classify(Partition(snapshot, us[..i]), snapshot, us[i])
    ensures var u := us[i];
      Written(snapshot, us[..i + 1]) ==
        Written(snapshot, us[..i]) + (if u.name !in snapshot && u.failure.None? then [(u.name, u.size)] else [])
  {
    assert us[..i + 1][..i] == us[..i];
    assert us[..i + 1][i] == us[i];
  }

  /** Partitioning distributes over concatenation, so each list keeps the
      input order. */
  lemma {:induction false} PartitionAppend(snapshot: seq<string>, a: seq<Upload>, b: seq<Upload>)
    ensures var ra := Partition(snapshot, a);
            var rb := Partition(snapshot, b);
      Partition(snapshot, a + b) == SaveReport(ra.saved + rb.saved, ra.skipped + rb.skipped, ra.errors + rb.errors)
  {
    if |b| == 0 {
      assert a + b == a;
    } else {
      var ab := a + b;
      var u := b[|b| - 1];
      assert ab[..|ab| - 1] == a + b[..|b| - 1];
      assert ab[|ab| - 1] == u;
      PartitionAppend(snapshot, a, b[..|b| - 1]);
      assert Partition(snapshot, ab) == Classify(Partition(snapshot, a + b[..|b| - 1]), snapshot, u);
      assert Partition(snapshot, b) == Classify(Partition(snapshot, b[..|b| - 1]), snapshot, u);
      ClassifyJoin(Partition(snapshot, a), Partition(snapshot, b[..|b| - 1]), snapshot, u);
    }
  }

  lemma ClassifyJoin(ra: SaveReport, rb: SaveReport, snapshot: seq<string>, u: Upload)
    ensures var rc := Classify(rb, snapshot, u);
      Classify(SaveReport(ra.saved + rb.saved, ra.skipped + rb.skipped, ra.errors + rb.errors), snapshot, u)
        == SaveReport(ra.saved + rc.saved, ra.skipped + rc.skipped, ra.errors + rc.errors)
  {
    if u.name in snapshot {
      assert (ra.skipped + rb.skipped) + [u.name] == ra.skipped + (rb.skipped + [u.name]);
    } else if u.failure.Some? {
      var e := SaveError(u.name, u.failure.value);
      assert (ra.errors + rb.errors) + [e] == ra.errors + (rb.errors + [e]);
    } else {
      assert (ra.saved + rb.saved) + [u.name] == ra.saved + (rb.saved + [u.name]);
    }
  }

  /** A file is skipped exactly when its name was in the snapshot. */
  lemma {:induction false} PartitionSkipped(snapshot: seq<string>, us: seq<Upload>, n: string)
    ensures n in Partition(snapshot, us).skipped <==>
      n in snapshot && exists i | 0 <= i < |us| :: us[i].name == n
  {
    if |us| > 0 {
      var init := us[..|us| - 1];
      PartitionSkipped(snapshot, init, n);
      if exists i | 0 <= i < |init| :: init[i].name == n {
        var i :| 0 <= i < |init| && init[i].name == n;
        assert us[i] == init[i];
      }
      if exists i | 0 <= i < |us| :: us[i].name == n {
        var i :| 0 <= i < |us| && us[i].name == n;
        if i < |init| {
          assert init[i] == us[i];
        }
      }
    }
  }

  /** A file is saved exactly when its name was not in the snapshot and
      writing it succeeded. */
  lemma {:induction false} PartitionSaved(snapshot: seq<string>, us: seq<Upload>, n: string)
    ensures n in Partition(snapshot, us).saved <==>
      n !in snapshot && exists i | 0 <= i < |us| :: us[i].name == n && us[i].failure.None?
  {
    if |us| > 0 {
      var init := us[..|us| - 1];
      PartitionSaved(snapshot, init, n);
      if exists i | 0 <= i < |init| :: init[i].name == n && init[i].failure.None? {
        var i :| 0 <= i < |init| && init[i].name == n && init[i].failure.None?;
        assert us[i] == init[i];
      }
      if exists i | 0 <= i < |us| :: us[i].name == n && us[i].failure.None? {
        var i :| 0 <= i < |us| && us[i].name == n && us[i].failure.None?;
        if i < |init| {
          assert init[i] == us[i];
        }
      }
    }
  }

  /** A file that was already in the folder is never rewritten. */
  lemma SkippedNotWritten(f: Folder, us: seq<Upload>, n: string)
    requires n in GetExistingDocuments(f)
    ensures Dict.Get(Dict.PutAll(f.files, Written(GetExistingDocuments(f), us)), n) == Dict.Get(f.files, n)
  {
    var snapshot := GetExistingDocuments(f);
    var w := Written(snapshot, us);
    PartitionSaved(snapshot, us, n);
    WrittenNames(snapshot, us);
    Dict.PutAllGet(f.files, w, n);
  }

  /** Two new files with the same name in one batch are both reported as
      saved; the second replaces the first on disk. */
  lemma SameNameBothSaved(files: seq<(string, nat)>, n: string, size1: nat, size2: nat)
    ensures Partition([], [Upload(n, size1, None), Upload(n, size2, None)]).saved == [n, n]
    ensures Dict.Get(Dict.PutAll(files, Written([], [Upload(n, size1, None), Upload(n, size2, None)])), n) == Some(size2)
  {
    SameNameWritten(n, size1, size2);
    var w := [(n, size1), (n, size2)];
    Dict.PutAllGet(files, w, n);
    assert Dict.Keys(w) == [n, n];
    assert Dict.LastValue(w, n) == size2;
  }

  lemma SameNameWritten(n: string, size1: nat, size2: nat)
    ensures Partition([], [Upload(n, size1, None), Upload(n, size2, None)]).saved == [n, n]
    ensures Written([], [Upload(n, size1, None), Upload(n, size2, None)]) == [(n, size1), (n, size2)]
  {
    var us := [Upload(n, size1, None), Upload(n, size2, None)];
    assert us[..1][..0] == [];
    assert Written([], us[..1]) == [(n, size1)];
  }

  // ---------------------------------------------------------------------
  // Deleting

  function NotFoundMessage(n: string): string {
    "El archivo " + n + " no existe."
  }

  function DeletedMessage(n: string): string {
    "Archivo " + n + " eliminado correctamente."
  }

  function DeleteError(n: string, e: string): string {
    "Error al eliminar " + n + ": " + e
  }

  /** `delete_document`; `failure` is the error removing the file raises, if
      any. */
  function DeleteDocument(f: Folder, n: string, failure: Option<string>): (r: (Folder, bool, string))
    ensures !r.1 ==> r.0 == f
    ensures r.1 <==> f.present && n in Dict.Keys(f.files) && failure.None?
    ensures !(f.present && n in Dict.Keys(f.files)) ==> r.2 == NotFoundMessage(n)
    ensures r.1 ==> r.2 == DeletedMessage(n)
    ensures r.1 ==> forall k :: Dict.Get(r.0.files, k) == if k == n then None else Dict.Get(f.files, k)
  {
    if !(f.present && n in Dict.Keys(f.files)) then (f, false, NotFoundMessage(n))
    else if failure.Some? then (f, false, DeleteError(n, failure.value))
    else
      var files := Dict.Remove(f.files, n);
      forall k ensures Dict.Get(files, k) == if k == n then None else Dict.Get(f.files, k) {
        Dict.RemoveGet(f.files, n, k);
      }
      (Folder(true, files), true, DeletedMessage(n))
  }

  // ---------------------------------------------------------------------
  // Summary

  datatype DocInfo = DocInfo(documents: seq<(string, nat)>, totalCount: nat, totalSize: nat)

  /** The (name, size) entries of the listed PDFs whose size can be read;
      `statOk` says whether `os.path.getsize` succeeds for a name. */
  function Described(f: Folder, statOk: string -> bool, names: seq<string>): (r: seq<(string, nat)>)
    ensures |r| <= |names|
  {
    if |names| == 0 then []
    else
      var n := names[|names| - 1];
      var size := Dict.Get(f.files, n);
      Described(f, statOk, names[..|names| - 1])
        + (if statOk(n) && size.Some? then [(n, size.value)] else [])
  }

  function TotalSize(entries: seq<(string, nat)>): nat {
    if |entries| == 0 then 0 else TotalSize(entries[..|entries| - 1]) + entries[|entries| - 1].1
  }

  lemma DescribedStep(f: Folder, statOk: string -> bool, docs: seq<string>, i: nat)
    requires i < |docs|
    ensures Described(f, statOk, docs[..i + 1]) ==
      Described(f, statOk, docs[..i])
        + (if statOk(docs[i]) && Dict.Get(f.files, docs[i]).Some? then [(docs[i], Dict.Get(f.files, docs[i]).value)] else [])
  {
    assert docs[..i + 1][..i] == docs[..i];
  }

  lemma TotalSizeSnoc(entries: seq<(string, nat)>, x: (string, nat))
    ensures TotalSize(entries + [x]) == TotalSize(entries) + x.1
  {
    assert (entries + [x])[..|entries|] == entries;
  }

  /** `get_document_info` */
  method GetDocumentInfo(f: Folder, statOk: string -> bool) returns (info: DocInfo)
    ensures info.totalCount == |GetExistingDocuments(f)|
    ensures info.documents == Described(f, statOk, GetExistingDocuments(f))
    ensures info.totalSize == TotalSize(info.documents)
    ensures |info.documents| <= info.totalCount
  {
    var docs := GetExistingDocuments(f);
    var entries: seq<(string, nat)> := [];
    var total := 0;
    var i := 0;
    while i < |docs|
      invariant 0 <= i <= |docs|
      invariant entries == Described(f, statOk, docs[..i])
      invariant total == TotalSize(entries)
    {
      var n := docs[i];
      var size := Dict.Get(f.files, n);
      DescribedStep(f, statOk, docs, i);
      if statOk(n) && size.Some? {
        TotalSizeSnoc(entries, (n, size.value));
        total := total + size.value;
        entries := entries + [(n, size.value)];
      }
      i := i + 1;
    }
    assert docs[..i] == docs;
    info := DocInfo(entries, |docs|, total);
  }

  /** When every size can be read, every listed PDF is described, with the
      size stored for it. */
  lemma {:induction false} AllDescribed(f: Folder, statOk: string -> bool, names: seq<string>)
    requires forall n | n in names :: statOk(n) && n in Dict.Keys(f.files)
    ensures |Described(f, statOk, names)| == |names|
    ensures forall i | 0 <= i < |names| ::
      Described(f, statOk, names)[i] == (names[i], Dict.Get(f.files, names[i]).value)
  {
    if |names| > 0 {
      var init := names[..|names| - 1];
      var last := names[|names| - 1];
      assert forall n | n in init :: n in names;
      AllDescribed(f, statOk, init);
      assert last in names;
      assert statOk(last) && Dict.Get(f.files, last).Some?;
      var d := Described(f, statOk, names);
      assert d == Described(f, statOk, init) + [(last, Dict.Get(f.files, last).value)];
      forall i | 0 <= i < |names| ensures d[i] == (names[i], Dict.Get(f.files, names[i]).value) {
        if i < |init| {
          assert names[i] == init[i];
        }
      }
    }
  }
}
