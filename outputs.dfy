/**
 * The `--output` argument: items such as "json", "csv=out.csv" or
 * "thumb.png", separated by ',' or ';', grouped into a map from output
 * type to the requested paths ("" for "use the default path").
 */
module OutputSpec {
  import opened Wrappers
  import PyText

  const SUPPORTED_TYPES: set<string> :=
    {"json", "csv", "html", "image", "thumbnail", "fhir", "report", "agg-csv", "agg-json"}

  /** File extension (lower case, without the dot) to output type. */
  const EXT_TO_TYPE: map<string, string> :=
    map["json" := "json", "csv" := "csv", "html" := "html",
        "png" := "image", "jpg" := "image", "jpeg" := "image",
        "bmp" := "image", "tiff" := "image", "tif" := "image",
        "thumb" := "thumbnail", "fhir" := "fhir"]

  /** One accepted output request. */
  datatype Entry = Entry(kind: string, path: string)

  /**
   * What one stripped, non-empty part requests, or None where the source
   * logs a warning and skips it. `resolve` stands for the path resolution
   * (`Path(fn)` kept when absolute or with a directory, else placed under
   * the working directory, then `str`).
   */
  function Classify(p: string, resolve: string -> string): (r: Option<Entry>)
    ensures r.Some? ==> r.value.kind in SUPPORTED_TYPES
  {
    if '=' in p then
      var t := PyText.Lower(PyText.Strip(PyText.BeforeFirst(p, '=')));
      if t in SUPPORTED_TYPES then Some(Entry(t, resolve(PyText.AfterFirst(p, '='))))
      else None
    else if PyText.Lower(p) in SUPPORTED_TYPES then Some(Entry(PyText.Lower(p), ""))
    else if '.' in p then
      var ext := PyText.Lower(PyText.AfterLast(p, '.'));
      if ext in EXT_TO_TYPE then Some(Entry(EXT_TO_TYPE[ext], resolve(p)))
      else None
    else None
  }

  /** The parts of one item: ';' counts as ',', blanks are dropped. */
  function ItemParts(raw: string): (r: seq<string>)
    ensures forall i :: 0 <= i < |r| ==> r[i] != "" && PyText.Strip(r[i]) == r[i] && ',' !in r[i] && ';' !in r[i]
  {
    var s := PyText.Replace(raw, ';', ',');
    assert ';' !in s by {
      assert forall i :: 0 <= i < |s| ==> s[i] != ';';
    }
    PyText.SplitKeepsOut(s, ',', ';');
    PyText.StripNonEmptyFrom(PyText.Split(s, ','), ';');
    PyText.StrippedFields(s, ',')
  }

  /** ';' and ',' separate items alike. */
  lemma {:induction false} SemicolonIsComma(a: string, b: string)
    ensures ItemParts(a + ";" + b) == ItemParts(a + "," + b)
  {
    var x := PyText.Replace(a + ";" + b, ';', ',');
    var y := PyText.Replace(a + "," + b, ';', ',');
    assert forall i :: 0 <= i < |x| ==> x[i] == y[i];
    assert x == y;
  }

  /** The accepted requests among `parts`, in order. */
  function PartsEntries(parts: seq<string>, resolve: string -> string): (r: seq<Entry>)
    ensures forall i :: 0 <= i < |r| ==> r[i].kind in SUPPORTED_TYPES
  {
    if |parts| == 0 then []
    else
      PartsEntries(parts[..|parts| - 1], resolve) + Accepted(parts[|parts| - 1], resolve)
  }

  /** The request of one part, if accepted. */
  function Accepted(p: string, resolve: string -> string): (r: seq<Entry>)
    ensures forall i :: 0 <= i < |r| ==> r[i].kind in SUPPORTED_TYPES
  {
    match Classify(p, resolve)
    case Some(e) => [e]
    case None => []
  }

  /** The accepted requests of all items, in order; empty items are skipped. */
  function Entries(items: seq<string>, resolve: string -> string): (r: seq<Entry>)
    ensures forall i :: 0 <= i < |r| ==> r[i].kind in SUPPORTED_TYPES
  {
    if |items| == 0 then []
    else
      var raw := items[|items| - 1];
      Entries(items[..|items| - 1], resolve)
      + (if raw == "" then [] else PartsEntries(ItemParts(raw), resolve))
  }

  /** Files every entry in turn: a new type starts an empty list, and the entry's path is appended to its type's list. */
  function Group(entries: seq<Entry>): (r: map<string, seq<string>>)
    ensures forall k :: k in r ==> r[k] != []
  {
    if |entries| == 0 then map[]
    else
      File(Group(entries[..|entries| - 1]), entries[|entries| - 1])
  }

  /** Appends the entry's path to the list of its type, starting a list for a new type. */
  function File(m: map<string, seq<string>>, e: Entry): (r: map<string, seq<string>>)
    ensures r.Keys == m.Keys + {e.kind}
    ensures |r[e.kind]| > 0 && r[e.kind][|r[e.kind]| - 1] == e.path
    ensures e.kind in m ==> r[e.kind][..|r[e.kind]| - 1] == m[e.kind]
    ensures forall k :: k in m && k != e.kind ==> r[k] == m[k]
  {
    m[e.kind := (if e.kind in m then m[e.kind] else []) + [e.path]]
  }

  /** Reference definition: the paths requested for `kind`, in order. */
  function PathsOf(entries: seq<Entry>, kind: string): seq<string>
  {
    if |entries| == 0 then []
    else
      var e := entries[|entries| - 1];
      PathsOf(entries[..|entries| - 1], kind) + (if e.kind == kind then [e.path] else [])
  }

  /**
   * The inner loop of `parse_output_items`: files the accepted parts of one
   * item into `outmap`, which already groups the entries `done`.
   */
  method AddParts(outmap: map<string, seq<string>>, ghost done: seq<Entry>, parts: seq<string>,
                  resolve: string -> string)
    returns (outmap': map<string, seq<string>>)
    requires outmap == Group(done)
    ensures outmap' == Group(done + PartsEntries(parts, resolve))
  {
    outmap' := outmap;
    assert done + PartsEntries(parts[..0], resolve) == done;
    var j := 0;
    while j < |parts|
      invariant 0 <= j <= |parts|
      invariant outmap' == Group(done + PartsEntries(parts[..j], resolve))
    {
      ghost var es := done + PartsEntries(parts[..j], resolve);
      PartsEntriesStep(done, parts, j, resolve);
      var c := Classify(parts[j], resolve);
      if c.Some? {
        GroupSnoc(es, c.value);
        outmap' := File(outmap', c.value);
      } else {
        assert es + [] == es;
      }
      j := j + 1;
    }
    assert parts[..j] == parts;
  }

  /** One more part adds its accepted request, if any. */
  lemma PartsEntriesStep(done: seq<Entry>, parts: seq<string>, j: nat, resolve: string -> string)
    requires j < |parts|
    ensures done + PartsEntries(parts[..j + 1], resolve)
         == (done + PartsEntries(parts[..j], resolve)) + Accepted(parts[j], resolve)
  {
    assert parts[..j + 1][..j] == parts[..j];
  }

  /** Grouping one more entry files it into the grouped map. */
  lemma GroupSnoc(es: seq<Entry>, e: Entry)
    ensures Group(es + [e]) == File(Group(es), e)
  {
    assert (es + [e])[..|es|] == es;
  }

  /** `parse_output_items(items, outdir)`; `outdir` is never read by the source. */
  method ParseOutputItems(items: seq<string>, resolve: string -> string)
    returns (outmap: map<string, seq<string>>)
    ensures outmap == Group(Entries(items, resolve))
  {
    outmap := map[];
    var i := 0;
    while i < |items|
      invariant 0 <= i <= |items|
      invariant outmap == Group(Entries(items[..i], resolve))
    {
      var raw := items[i];
      ghost var done := Entries(items[..i], resolve);
      EntriesStep(items, i, resolve);
      if raw != "" {
        outmap := AddParts(outmap, done, ItemParts(raw), resolve);
      } else {
        assert done + [] == done;
      }
      i := i + 1;
    }
    assert items[..i] == items;
  }

  /** One more item adds the accepted requests of its parts. */
  lemma EntriesStep(items: seq<string>, i: nat, resolve: string -> string)
    requires i < |items|
    ensures Entries(items[..i + 1], resolve)
         == Entries(items[..i], resolve)
            + (if items[i] == "" then [] else PartsEntries(ItemParts(items[i]), resolve))
  {
    assert items[..i + 1][..i] == items[..i];
  }

  /**
   * The grouped map holds a type exactly when some entry requests it, and
   * then the paths requested for it in input order.
   */
  lemma {:induction false} GroupCollectsPaths(entries: seq<Entry>)
    ensures forall k :: k in Group(entries) <==> PathsOf(entries, k) != []
    ensures forall k :: k in Group(entries) ==> Group(entries)[k] == PathsOf(entries, k)
  {
    if |entries| > 0 {
      GroupCollectsPaths(entries[..|entries| - 1]);
    }
  }

  /** Every requested type is a supported one. */
  lemma OutputTypesSupported(items: seq<string>, resolve: string -> string)
    ensures Group(Entries(items, resolve)).Keys <= SUPPORTED_TYPES
  {
    var es := Entries(items, resolve);
    GroupCollectsPaths(es);
    forall k | k in Group(es)
      ensures k in SUPPORTED_TYPES
    {
      PathsOfKinds(es, k);
    }
  }

  /** A type with requested paths is the type of some entry. */
  lemma {:induction false} PathsOfKinds(entries: seq<Entry>, kind: string)
    requires PathsOf(entries, kind) != []
    ensures exists i :: 0 <= i < |entries| && entries[i].kind == kind
  {
    var e := entries[|entries| - 1];
    if e.kind != kind {
      PathsOfKinds(entries[..|entries| - 1], kind);
      var i :| 0 <= i < |entries| - 1 && entries[..|entries| - 1][i].kind == kind;
      assert entries[i].kind == kind;
    }
  }

  /** Letters of a type name or an extension: lower-case ASCII and '-'. */
  predicate NameChars(s: string) {
    forall i :: 0 <= i < |s| ==> PyText.IsLowerAscii(s[i]) || s[i] == '-'
  }

  /** Such a name is its own lower case and strip, and holds no '=' or '.'. */
  lemma {:induction false} NamePlain(s: string)
    requires NameChars(s)
    ensures PyText.Lower(s) == s && PyText.Strip(s) == s && '=' !in s && '.' !in s
  {
    assert PyText.Lower(s) == s by {
      assert forall i :: 0 <= i < |s| ==> PyText.Lower(s)[i] == s[i];
    }
    assert PyText.Strip(s) == s by {
      if s != "" {
        assert !PyText.IsSpace(s[0]) && !PyText.IsSpace(s[|s| - 1]);
      }
      PyText.StripUnpadded(s);
    }
  }

  /** The supported type names are lower case and free of '=', '.' and blanks. */
  lemma SupportedNamesPlain(t: string)
    requires t in SUPPORTED_TYPES
    ensures PyText.Lower(t) == t && PyText.Strip(t) == t && '=' !in t && '.' !in t
  {
    if t == "json" || t == "csv" || t == "html" {
      assert NameChars(t);
    } else if t == "image" || t == "thumbnail" || t == "fhir" {
      assert NameChars(t);
    } else {
      assert NameChars(t);
    }
    NamePlain(t);
  }

  /** "type=file" requests `file`, resolved, under that type. */
  lemma ClassifyExplicit(t: string, fn: string, resolve: string -> string)
    requires t in SUPPORTED_TYPES
    ensures Classify(t + "=" + fn, resolve) == Some(Entry(t, resolve(fn)))
  {
    SupportedNamesPlain(t);
    PyText.SplitAtFirst(t, '=', fn);
  }

  /**
   * What is rejected: an explicit type that is not supported, a bare name
   * that is neither a type nor dotted, and a dotted name whose last
   * extension is unknown.
   */
  lemma ClassifyRejects(p: string, resolve: string -> string)
    ensures '=' in p && PyText.Lower(PyText.Strip(PyText.BeforeFirst(p, '='))) !in SUPPORTED_TYPES ==>
              Classify(p, resolve).None?
    ensures '=' !in p && PyText.Lower(p) !in SUPPORTED_TYPES && '.' !in p ==> Classify(p, resolve).None?
    ensures '=' !in p && PyText.Lower(p) !in SUPPORTED_TYPES && '.' in p &&
            PyText.Lower(PyText.AfterLast(p, '.')) !in EXT_TO_TYPE ==>
              Classify(p, resolve).None?
  {
  }

  /** The type name before '=' is stripped and lower-cased: " CSV =x" requests "x" as csv. */
  lemma ClassifyPaddedType(resolve: string -> string)
    ensures Classify(" CSV =x", resolve) == Some(Entry("csv", resolve("x")))
  {
    PaddedCsvPieces();
    PaddedCsvName();
    CsvLower();
    assert '=' in " CSV =x" by {
      assert " CSV =x"[5] == '=';
    }
  }

  /** The pieces `Classify` takes from " CSV =x". */
  lemma PaddedCsvPieces()
    ensures PyText.BeforeFirst(" CSV =x", '=') == " CSV " && PyText.AfterFirst(" CSV =x", '=') == "x"
  {
    var name := " CSV ";
    assert '=' !in name;
    PyText.SplitAtFirst(name, '=', "x");
    assert name + ['='] + "x" == " CSV =x";
  }

  /** "CSV" lower-cases to "csv". */
  lemma CsvLower()
    ensures PyText.Lower("CSV") == "csv"
  {
    var lower := PyText.Lower("CSV");
    assert lower[0] == 'c' && lower[1] == 's' && lower[2] == 'v';
  }

  /** " CSV " strips to "CSV". */
  lemma PaddedCsvName()
    ensures PyText.Strip(" CSV ") == "CSV"
  {
    var name := " CSV ";
    assert PyText.Strip(name) == "CSV" by {
      assert PyText.IsSpace(' ') && !PyText.IsSpace('C') && !PyText.IsSpace('V');
      assert name[1..] == "CSV ";
      assert PyText.LStrip(name) == PyText.LStrip("CSV ");
      assert PyText.LStrip("CSV ") == "CSV ";
      var t := "CSV ";
      assert t[..3] == "CSV";
      assert PyText.RStrip(t) == PyText.RStrip("CSV");
      assert PyText.RStrip("CSV") == "CSV";
    }
  }

  /** A bare type name requests that type at its default path. */
  lemma ClassifyBare(t: string, resolve: string -> string)
    requires t in SUPPORTED_TYPES
    ensures Classify(t, resolve) == Some(Entry(t, ""))
  {
    SupportedNamesPlain(t);
  }

  /** A file name is typed by its last extension. */
  lemma ClassifyByExtension(base: string, ext: string, resolve: string -> string)
    requires '=' !in base
    requires ext in EXT_TO_TYPE
    ensures Classify(base + "." + ext, resolve) == Some(Entry(EXT_TO_TYPE[ext], resolve(base + "." + ext)))
  {
    var p := base + "." + ext;
    ExtensionPlain(ext);
    assert '=' !in p by {
      assert forall i :: 0 <= i < |p| ==> p[i] == (if i < |base| then base[i] else if i == |base| then '.' else ext[i - |base| - 1]);
    }
    assert '.' in p by {
      assert p[|base|] == '.';
    }
    DottedNotSupported(p, |base|);
    PyText.SplitAtLast(base, '.', ext);
  }

  /** The known extensions are lower case and free of '=' and '.'. */
  lemma ExtensionPlain(ext: string)
    requires ext in EXT_TO_TYPE
    ensures PyText.Lower(ext) == ext && '=' !in ext && '.' !in ext
  {
    if ext == "json" || ext == "csv" || ext == "html" || ext == "png" {
      assert NameChars(ext);
    } else if ext == "jpg" || ext == "jpeg" || ext == "bmp" || ext == "tiff" {
      assert NameChars(ext);
    } else {
      assert NameChars(ext);
    }
    NamePlain(ext);
  }

  /** A text with a '.' does not lower-case to a supported type name. */
  lemma DottedNotSupported(p: string, k: nat)
    requires k < |p| && p[k] == '.'
    ensures PyText.Lower(p) !in SUPPORTED_TYPES
  {
    assert PyText.Lower(p)[k] == '.';
    forall t | t in SUPPORTED_TYPES
      ensures PyText.Lower(p) != t
    {
      SupportedNamesPlain(t);
    }
  }
}
