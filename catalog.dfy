/**
 * Normalisation of the raw catalog metadata into display entries: the
 * filename check, author resolution, the Panditya link, the PDF-link
 * parser and the driver that builds and sorts the entries.
 */
module Catalog {
  import opened Results
  import opened Text
  import opened Lex
  import opened StableSort
  import Collation

  /** A metadata value: the records hold strings and lists of strings. */
  datatype Value = Str(s: string) | StrList(items: seq<string>)

  /** One raw metadata record: field name to value. */
  type Record = map<string, Value>

  /** The query parameters handed to urlencode, in insertion order. */
  type Params = seq<(string, Value)>

  datatype PdfLink = PdfLink(text: string, url: string)

  /** One display entry of the catalog. */
  datatype Entry = Entry(
    filenameBase: Value,
    originalExtension: Value,
    title: Value,
    author: Value,
    panditUrl: string,
    edition: Value,
    pdfLinks: seq<PdfLink>,
    size: Value,
    genre: string)

  /** Why a record cannot be normalised (Python raises on each of these). */
  datatype Failure = MissingFilename | MissingField(name: string) | TitleNotString

  /** What a Python for loop, or str.join, sees when it iterates over the value. */
  function Elements(v: Value): seq<string>
  {
    match v
    case Str(s) => Chars(s)
    case StrList(l) => l
  }

  /** Python truthiness of the value. */
  predicate Truthy(v: Value)
  {
    match v
    case Str(s) => s != ""
    case StrList(l) => l != []
  }

  /** get_filename_info */
  function GetFilenameInfo(record: Record): (r: Result<(Value, Value), Failure>)
    ensures r.Ok? <==> "Filename" in record && "Original Submission Filetype" in record
    ensures "Filename" !in record ==> r == Err(MissingFilename)
    ensures r.Ok? ==> r.value == (record["Filename"], record["Original Submission Filetype"])
  {
    if "Filename" !in record then Err(MissingFilename)
    else if "Original Submission Filetype" !in record then Err(MissingField("Original Submission Filetype"))
    else Ok((record["Filename"], record["Original Submission Filetype"]))
  }

  /** get_author_info: Author, else Authors joined with ", ", else Attributed Author, else "". */
  function GetAuthorInfo(record: Record): (r: Value)
    ensures "Author" in record ==> r == record["Author"]
    ensures "Author" !in record && "Authors" in record ==> r == Str(Join(", ", Elements(record["Authors"])))
    ensures "Author" !in record && "Authors" !in record && "Attributed Author" in record ==>
      r == record["Attributed Author"]
    ensures "Author" !in record && "Authors" !in record && "Attributed Author" !in record ==> r == Str("")
  {
    if "Author" in record then record["Author"]
    else if "Authors" in record then Str(Join(", ", Elements(record["Authors"])))
    else if "Attributed Author" in record then record["Attributed Author"]
    else Str("")
  }

  /**
   * A list of authors none of whose names contains a comma is recovered
   * from the resolved author string by splitting it at ", ".
   */
  lemma AuthorsRecoverable(record: Record)
    requires "Author" !in record && "Authors" in record
    requires record["Authors"].StrList? && |record["Authors"].items| >= 1
    requires forall i :: 0 <= i < |record["Authors"].items| ==> ',' !in record["Authors"].items[i]
    ensures GetAuthorInfo(record).Str?
    ensures Split(GetAuthorInfo(record).s, ", ") == record["Authors"].items
  {
    SplitJoin(", ", record["Authors"].items);
  }

  /**
   * get_pandit_author_info: Pandit Author IDs (a list joined with ",", a
   * string as it is), else Pandit Attributed Author ID, else "".
   */
  function GetPanditAuthorInfo(record: Record): (r: Value)
    ensures "Pandit Author IDs" in record && record["Pandit Author IDs"].StrList? ==>
      r == Str(Join(",", record["Pandit Author IDs"].items))
    ensures "Pandit Author IDs" in record && record["Pandit Author IDs"].Str? ==> r == record["Pandit Author IDs"]
    ensures "Pandit Author IDs" !in record && "Pandit Attributed Author ID" in record ==>
      r == record["Pandit Attributed Author ID"]
    ensures "Pandit Author IDs" !in record && "Pandit Attributed Author ID" !in record ==> r == Str("")
  {
    if "Pandit Author IDs" in record then
      match record["Pandit Author IDs"]
      case StrList(ids) => Str(Join(",", ids))
      case Str(s) => Str(s)
    else if "Pandit Attributed Author ID" in record then record["Pandit Attributed Author ID"]
    else Str("")
  }

  /** The author ids are recovered from the joined string when no id contains a comma. */
  lemma PanditIdsRecoverable(record: Record)
    requires "Pandit Author IDs" in record && record["Pandit Author IDs"].StrList?
    requires |record["Pandit Author IDs"].items| >= 1
    requires forall i :: 0 <= i < |record["Pandit Author IDs"].items| ==> ',' !in record["Pandit Author IDs"].items[i]
    ensures Split(GetPanditAuthorInfo(record).s, ",") == record["Pandit Author IDs"].items
  {
    SplitJoin(",", record["Pandit Author IDs"].items);
  }

  /** The record's `Pandit Work ID`, or the empty string when it has none. */
  function PanditWork(record: Record): Value
  {
    if "Pandit Work ID" in record then record["Pandit Work ID"] else Str("")
  }

  const PanditBase: string := "https://panditya.info/view?"

  /** The parameter dict of get_panditya_url: hops, then authors, then works. */
  function PanditParams(author: Value, work: Value): (p: Params)
    ensures |p| == 1 + (if Truthy(author) then 1 else 0) + (if Truthy(work) then 1 else 0)
    ensures p[0] == ("hops", Str("1"))
    ensures Truthy(author) ==> p[1] == ("authors", author)
    ensures Truthy(work) ==> p[|p| - 1] == ("works", work)
  {
    [("hops", Str("1"))]
      + (if Truthy(author) then [("authors", author)] else [])
      + (if Truthy(work) then [("works", work)] else [])
  }

  /**
   * get_panditya_url: "" when there is neither a pandit author nor a work,
   * otherwise the view URL with the encoded parameters.
   */
  function GetPandityaUrl(record: Record, urlencode: Params -> string): (r: string)
    ensures r == "" <==> !Truthy(GetPanditAuthorInfo(record)) && !Truthy(PanditWork(record))
    ensures r != "" ==>
      (StartsWith(r, PanditBase) &&
       r[|PanditBase|..] == urlencode(PanditParams(GetPanditAuthorInfo(record), PanditWork(record))))
  {
    var author := GetPanditAuthorInfo(record);
    var work := PanditWork(record);
    if !(Truthy(author) || Truthy(work)) then ""
    else PanditBase + urlencode(PanditParams(author, work))
  }

  /**
   * One entry of Edition PDFs: "[text](url)" gives the text between the
   * leading "[" and the first "](", and the second "](" segment without
   * its last character; anything not starting with "[" or without "](" is
   * skipped.
   */
  function ParsePdfLink(s: string): (r: Option<PdfLink>)
    ensures r.None? <==> !StartsWith(s, "[") || Find(s, "](").None?
    ensures r.Some? ==> 1 <= Find(s, "](").value && r.value.text == s[1..Find(s, "](").value]
    ensures r.Some? ==> r.value.url == DropLast(Split(s, "](")[1])
  {
    if StartsWith(s, "[") && Find(s, "](").Some? then
      var parts := Split(s, "](");
      var k := Find(s, "](").value;
      assert s[0] == '[' by {
        assert s[..1][0] == s[0];
      }
      assert k != 0 by {
        assert s[k + 0] == "]("[0];
      }
      Some(PdfLink(DropFirst(parts[0]), DropLast(parts[1])))
    else None
  }

  /** A well-formed markdown link is read back as the text and url it was written from. */
  lemma PdfLinkRoundTrip(text: string, url: string)
    requires Find(text, "](").None? && Find(url, "](").None?
    ensures ParsePdfLink("[" + text + "](" + url + ")") == Some(PdfLink(text, url))
  {
    var s := "[" + text + "](" + url + ")";
    var p := 1 + |text|;
    assert OccursAt(s, "](", p) by {
      assert s[p] == ']' && s[p + 1] == '(';
    }
    assert "]("[0] == ']' && "]("[1] == '(';
    forall j | 0 <= j < p ensures !OccursAt(s, "](", j) {
      if j == 0 {
        assert s[0] == '[';
      } else if j + 1 < p {
        assert !OccursAt(text, "](", j - 1);
        assert text[j - 1] == s[j] && text[j] == s[j + 1];
      } else {
        assert s[j + 1] == ']';
      }
    }
    FindIsFirst(s, "](", p);
    assert StartsWith(s, "[") by {
      assert s[..1] == "[";
    }
    var rest := s[p + 2..];
    assert rest == url + ")";
    forall k | 0 <= k ensures !OccursAt(rest, "](", k) {
      if k + 2 <= |url| {
        assert !OccursAt(url, "](", k);
        assert url[k] == rest[k] && url[k + 1] == rest[k + 1];
      } else if k + 2 == |rest| {
        assert rest[k + 1] == ')';
      }
    }
    assert Split(rest, "](") == [rest];
    assert s[..p] == "[" + text;
  }

  /** The strings get_pdf_links iterates over. */
  function PdfStrings(record: Record): seq<string>
  {
    if "Edition PDFs" in record then Elements(record["Edition PDFs"]) else []
  }

  /** The links of the well-formed strings, in their order. */
  function PdfLinksOf(strings: seq<string>): (links: seq<PdfLink>)
    ensures |links| <= |strings|
    decreases |strings|
  {
    if strings == [] then []
    else
      PdfLinksOf(strings[..|strings| - 1]) +
        match ParsePdfLink(strings[|strings| - 1])
        case None => []
        case Some(link) => [link]
  }

  /** Order is kept: the links of a concatenation are the concatenated links. */
  lemma {:induction false} PdfLinksOfConcat(a: seq<string>, b: seq<string>)
    ensures PdfLinksOf(a + b) == PdfLinksOf(a) + PdfLinksOf(b)
    decreases |b|
  {
    if b == [] {
      assert a + b == a;
    } else {
      var b' := b[..|b| - 1];
      PdfLinksOfConcat(a, b');
      assert (a + b)[..|a + b| - 1] == a + b';
      assert (a + b)[|a + b| - 1] == b[|b| - 1];
    }
  }

  /** A malformed string contributes nothing; a well-formed one contributes its link. */
  lemma PdfLinksOfOne(s: string)
    ensures PdfLinksOf([s]) == match ParsePdfLink(s) case None => [] case Some(link) => [link]
  {
    assert [s][..0] == [];
  }

  /** Exactly the well-formed strings yield links, so nothing is lost when all are well-formed. */
  lemma {:induction false} PdfLinksOfWellFormed(strings: seq<string>)
    requires forall i :: 0 <= i < |strings| ==> ParsePdfLink(strings[i]).Some?
    ensures |PdfLinksOf(strings)| == |strings|
    ensures forall i :: 0 <= i < |strings| ==> PdfLinksOf(strings)[i] == ParsePdfLink(strings[i]).value
    decreases |strings|
  {
    if strings != [] {
      var init := strings[..|strings| - 1];
      var last := strings[|strings| - 1];
      assert strings == init + [last];
      PdfLinksOfWellFormed(init);
      PdfLinksOfConcat(init, [last]);
      PdfLinksOfOne(last);
    }
  }

  /** get_pdf_links */
  method GetPdfLinks(record: Record) returns (links: seq<PdfLink>)
    ensures links == PdfLinksOf(PdfStrings(record))
  {
    links := [];
    if "Edition PDFs" in record {
      var strings := Elements(record["Edition PDFs"]);
      for i := 0 to |strings|
        invariant links == PdfLinksOf(strings[..i])
      {
        assert strings[..i + 1][..i] == strings[..i];
        var s := strings[i];
        if StartsWith(s, "[") && Find(s, "](").Some? {
          var parts := Split(s, "](");
          var text := DropFirst(parts[0]);
          var url := DropLast(parts[1]);
          links := links + [PdfLink(text, url)];
        }
      }
      assert strings[..|strings|] == strings;
    }
  }

  /** The fields a record must have for its entry to be built and sorted. */
  predicate WellFormed(record: Record)
  {
    HasFields(record) && record["Title"].Str?
  }

  /** The display entry of one record, failing as the Python code does on a missing field. */
  function BuildEntry(record: Record, urlencode: Params -> string): (r: Result<Entry, Failure>)
    ensures "Filename" !in record ==> r == Err(MissingFilename)
    ensures r.Ok? <==> HasFields(record)
    ensures r.Ok? ==> r.value.title == record["Title"] && r.value.filenameBase == record["Filename"]
    ensures r.Ok? ==> r.value == Entry(
      record["Filename"], record["Original Submission Filetype"], record["Title"],
      GetAuthorInfo(record), GetPandityaUrl(record, urlencode), record["Edition Short"],
      PdfLinksOf(PdfStrings(record)), record["File Size (KB)"], Join(", ", Elements(record["Genres"])))
  {
    var info :- GetFilenameInfo(record);
    var url := GetPandityaUrl(record, urlencode);
    var links := PdfLinksOf(PdfStrings(record));
    if "Title" !in record then Err(MissingField("Title"))
    else if "Edition Short" !in record then Err(MissingField("Edition Short"))
    else if "File Size (KB)" !in record then Err(MissingField("File Size (KB)"))
    else if "Genres" !in record then Err(MissingField("Genres"))
    else Ok(Entry(
      info.0, info.1, record["Title"], GetAuthorInfo(record), url,
      record["Edition Short"], links, record["File Size (KB)"], Join(", ", Elements(record["Genres"]))))
  }

  /** The fields BuildEntry reads; a record without one of them makes the Python code raise. */
  predicate HasFields(record: Record)
  {
    && "Filename" in record
    && "Original Submission Filetype" in record
    && "Title" in record
    && "Edition Short" in record
    && "File Size (KB)" in record
    && "Genres" in record
  }

  /** The records process_metadata turns into entries: every key but "version", in order. */
  function NonVersion(raw: seq<(string, Record)>): (r: seq<Record>)
    ensures |r| <= |raw|
    decreases |raw|
  {
    if raw == [] then []
    else NonVersion(raw[..|raw| - 1]) + (if raw[|raw| - 1].0 == "version" then [] else [raw[|raw| - 1].1])
  }

  /** The loop of process_metadata: the entries in iteration order, or the first failure. */
  function Collect(raw: seq<(string, Record)>, urlencode: Params -> string): Result<seq<Entry>, Failure>
    decreases |raw|
  {
    if raw == [] then Ok([])
    else
      var init :- Collect(raw[..|raw| - 1], urlencode);
      if raw[|raw| - 1].0 == "version" then Ok(init)
      else
        var entry :- BuildEntry(raw[|raw| - 1].1, urlencode);
        Ok(init + [entry])
  }

  /** The collation key of the entry's title; a title that is not a string has no key. */
  function TitleKey(lower: string -> string, e: Entry): seq<int>
  {
    if e.title.Str? then Collation.SortKey(lower(e.title.s)) else []
  }

  /** The keys sorted() computes, in list order; a non-string title raises. */
  function KeyEntries(entries: seq<Entry>, lower: string -> string): Result<seq<Keyed<Entry>>, Failure>
  {
    if entries == [] then Ok([])
    else if !entries[0].title.Str? then Err(TitleNotString)
    else
      var rest :- KeyEntries(entries[1..], lower);
      Ok([Keyed(TitleKey(lower, entries[0]), entries[0])] + rest)
  }

  /** process_metadata: the entries sorted by the collation key of their titles. */
  function Processed(raw: seq<(string, Record)>, lower: string -> string, urlencode: Params -> string)
    : Result<seq<Entry>, Failure>
  {
    var entries :- Collect(raw, urlencode);
    var keyed :- KeyEntries(entries, lower);
    Ok(Items(SortByKey(keyed)))
  }

  /**
   * process_metadata.  `lower` is str.lower and `urlencode` is
   * urllib.parse.urlencode, both supplied by the caller.
   */
  method ProcessMetadata(raw: seq<(string, Record)>, lower: string -> string, urlencode: Params -> string)
    returns (r: Result<seq<Entry>, Failure>)
    ensures r == Processed(raw, lower, urlencode)
  {
    var subset: seq<Entry> := [];
    for i := 0 to |raw|
      invariant Collect(raw[..i], urlencode) == Ok(subset)
    {
      assert raw[..i + 1][..i] == raw[..i];
      var (key, record) := raw[i];
      if key == "version" {
        continue;
      }
      var info := GetFilenameInfo(record);
      if info.Err? {
        CollectFailsFrom(raw, i + 1, urlencode);
        return Err(info.error);
      }
      var panditUrl := GetPandityaUrl(record, urlencode);
      var pdfLinks := GetPdfLinks(record);
      if "Title" !in record {
        CollectFailsFrom(raw, i + 1, urlencode);
        return Err(MissingField("Title"));
      }
      if "Edition Short" !in record {
        CollectFailsFrom(raw, i + 1, urlencode);
        return Err(MissingField("Edition Short"));
      }
      if "File Size (KB)" !in record {
        CollectFailsFrom(raw, i + 1, urlencode);
        return Err(MissingField("File Size (KB)"));
      }
      if "Genres" !in record {
        CollectFailsFrom(raw, i + 1, urlencode);
        return Err(MissingField("Genres"));
      }
      subset := subset + [Entry(
        info.value.0, info.value.1, record["Title"], GetAuthorInfo(record), panditUrl,
        record["Edition Short"], pdfLinks, record["File Size (KB)"], Join(", ", Elements(record["Genres"])))];
    }
    assert raw[..|raw|] == raw;
    var keyed :- KeyEntries(subset, lower);
    r := Ok(Items(SortByKey(keyed)));
  }

  /** Once a prefix of the records fails, the whole loop fails with the same failure. */
  lemma {:induction false} CollectFailsFrom(raw: seq<(string, Record)>, i: nat, urlencode: Params -> string)
    requires i <= |raw| && Collect(raw[..i], urlencode).Err?
    ensures Collect(raw, urlencode) == Collect(raw[..i], urlencode)
    decreases |raw| - i
  {
    if i < |raw| {
      assert raw[..i + 1][..i] == raw[..i];
      CollectFailsFrom(raw, i + 1, urlencode);
    } else {
      assert raw[..i] == raw;
    }
  }

  /** The collation key of an entry's title, as a function on entries. */
  function ByTitle(lower: string -> string): Entry -> seq<int>
  {
    e => TitleKey(lower, e)
  }

  /** Every record whose key is not "version" is among the records passed on. */
  lemma {:induction false} NonVersionHas(raw: seq<(string, Record)>, i: nat)
    requires i < |raw| && raw[i].0 != "version"
    ensures raw[i].1 in NonVersion(raw)
    decreases |raw|
  {
    if i < |raw| - 1 {
      assert raw[..|raw| - 1][i] == raw[i];
      NonVersionHas(raw[..|raw| - 1], i);
    }
  }

  /** Every record has the fields BuildEntry reads. */
  predicate HaveFields(records: seq<Record>)
  {
    forall i :: 0 <= i < |records| ==> HasFields(records[i])
  }

  lemma HaveFieldsConcat(a: seq<Record>, b: seq<Record>)
    ensures HaveFields(a + b) <==> HaveFields(a) && HaveFields(b)
  {
    if HaveFields(a + b) {
      forall i | 0 <= i < |a| ensures HasFields(a[i]) {
        assert (a + b)[i] == a[i];
      }
      forall i | 0 <= i < |b| ensures HasFields(b[i]) {
        assert (a + b)[|a| + i] == b[i];
      }
    }
    if HaveFields(a) && HaveFields(b) {
      forall i | 0 <= i < |a + b| ensures HasFields((a + b)[i]) {
        if i >= |a| {
          assert (a + b)[i] == b[i - |a|];
        }
      }
    }
  }

  /** The loop succeeds exactly when every non-version record has the required fields. */
  lemma {:induction false} CollectOk(raw: seq<(string, Record)>, urlencode: Params -> string)
    ensures Collect(raw, urlencode).Ok? <==> HaveFields(NonVersion(raw))
    decreases |raw|
  {
    if raw != [] {
      var init := raw[..|raw| - 1];
      var last := raw[|raw| - 1];
      CollectOk(init, urlencode);
      var tail := if last.0 == "version" then [] else [last.1];
      assert NonVersion(raw) == NonVersion(init) + tail;
      HaveFieldsConcat(NonVersion(init), tail);
      if last.0 != "version" {
        assert HaveFields(tail) <==> HasFields(last.1) by {
          assert tail[0] == last.1;
        }
      }
    }
  }

  /** A successful loop yields one entry per non-version record, built from it, in order. */
  lemma {:induction false} CollectEntries(raw: seq<(string, Record)>, urlencode: Params -> string)
    requires Collect(raw, urlencode).Ok?
    ensures |Collect(raw, urlencode).value| == |NonVersion(raw)|
    ensures forall i :: 0 <= i < |NonVersion(raw)| ==>
      Ok(Collect(raw, urlencode).value[i]) == BuildEntry(NonVersion(raw)[i], urlencode)
    decreases |raw|
  {
    if raw != [] {
      var init := raw[..|raw| - 1];
      var last := raw[|raw| - 1];
      CollectEntries(init, urlencode);
      var built := Collect(init, urlencode).value;
      var nv := NonVersion(init);
      if last.0 != "version" {
        var all := built + [BuildEntry(last.1, urlencode).value];
        assert Collect(raw, urlencode) == Ok(all);
        assert NonVersion(raw) == nv + [last.1];
        forall i | 0 <= i < |nv| + 1 ensures Ok(all[i]) == BuildEntry((nv + [last.1])[i], urlencode) {
          if i < |nv| {
            assert all[i] == built[i];
          }
        }
      } else {
        assert NonVersion(raw) == nv;
      }
    }
  }

  /** Keys are computed exactly when every title is a string, one per entry. */
  lemma {:induction false} KeyEntriesSpec(entries: seq<Entry>, lower: string -> string)
    ensures KeyEntries(entries, lower).Ok? <==> forall i :: 0 <= i < |entries| ==> entries[i].title.Str?
    ensures KeyEntries(entries, lower).Ok? ==>
      Items(KeyEntries(entries, lower).value) == entries && KeyedBy(KeyEntries(entries, lower).value, ByTitle(lower))
    decreases |entries|
  {
    if entries != [] {
      KeyEntriesSpec(entries[1..], lower);
      if KeyEntries(entries, lower).Ok? {
        var keyed := KeyEntries(entries, lower).value;
        var rest := KeyEntries(entries[1..], lower).value;
        assert keyed == [Keyed(TitleKey(lower, entries[0]), entries[0])] + rest;
        ItemsConcat([Keyed(TitleKey(lower, entries[0]), entries[0])], rest);
        assert entries == [entries[0]] + entries[1..];
        forall i | 0 <= i < |keyed| ensures keyed[i].key == ByTitle(lower)(keyed[i].item) {
          if i > 0 {
            assert keyed[i] == rest[i - 1];
          }
        }
      }
      if forall i :: 0 <= i < |entries| ==> entries[i].title.Str? {
        assert forall i :: 0 <= i < |entries[1..]| ==> entries[1..][i].title.Str?;
      }
    }
  }

  /** The records that make up a successful catalog: all required fields, a string title. */
  predicate AllWellFormed(raw: seq<(string, Record)>)
  {
    forall i :: 0 <= i < |NonVersion(raw)| ==> WellFormed(NonVersion(raw)[i])
  }

  /**
   * process_metadata succeeds exactly when every non-version record has
   * the required fields and a string title.
   */
  lemma ProcessedOk(raw: seq<(string, Record)>, lower: string -> string, urlencode: Params -> string)
    ensures Processed(raw, lower, urlencode).Ok? <==> AllWellFormed(raw)
  {
    CollectOk(raw, urlencode);
    var nv := NonVersion(raw);
    if Collect(raw, urlencode).Ok? {
      var built := Collect(raw, urlencode).value;
      CollectEntries(raw, urlencode);
      KeyEntriesSpec(built, lower);
      assert forall i :: 0 <= i < |built| ==> built[i].title == nv[i]["Title"];
    } else {
      assert !HaveFields(nv);
      var i :| 0 <= i < |nv| && !HasFields(nv[i]);
      assert !WellFormed(nv[i]);
    }
  }

  /**
   * A successful result holds one entry per non-version record, is a
   * permutation of the entries built in iteration order, is ordered by the
   * collation key of the titles, and keeps the iteration order of entries
   * whose titles have equal keys.
   */
  lemma ProcessedSorted(raw: seq<(string, Record)>, lower: string -> string, urlencode: Params -> string)
    requires Processed(raw, lower, urlencode).Ok?
    ensures Collect(raw, urlencode).Ok?
    ensures
      var r := Processed(raw, lower, urlencode).value;
      var built := Collect(raw, urlencode).value;
      && |r| == |NonVersion(raw)|
      && multiset(r) == multiset(built)
      && (forall i, j :: 0 <= i < j < |r| ==> LexLe(TitleKey(lower, r[i]), TitleKey(lower, r[j])))
      && (forall k :: ItemsWithKey(r, ByTitle(lower), k) == ItemsWithKey(built, ByTitle(lower), k))
  {
    var built := Collect(raw, urlencode).value;
    CollectEntries(raw, urlencode);
    KeyEntriesSpec(built, lower);
    var keyed := KeyEntries(built, lower).value;
    var sorted := SortByKey(keyed);
    SortByKeyIsStableSort(keyed);
    ItemsPermutes(sorted, keyed);
    KeyedByPermutes(keyed, sorted, ByTitle(lower));
    var r := Items(sorted);
    assert r == Processed(raw, lower, urlencode).value;
    assert |r| == |built| by {
      assert |multiset(r)| == |multiset(built)|;
    }
    forall i, j | 0 <= i < j < |r| ensures LexLe(TitleKey(lower, r[i]), TitleKey(lower, r[j])) {
      assert sorted[i].key == ByTitle(lower)(r[i]);
      assert sorted[j].key == ByTitle(lower)(r[j]);
    }
    forall k ensures ItemsWithKey(r, ByTitle(lower), k) == ItemsWithKey(built, ByTitle(lower), k) {
      WithKeyItems(sorted, ByTitle(lower), k);
      WithKeyItems(keyed, ByTitle(lower), k);
    }
  }

  /** A non-version record without a Filename makes the whole call fail. */
  lemma MissingFilenameFails(raw: seq<(string, Record)>, i: nat, lower: string -> string, urlencode: Params -> string)
    requires i < |raw| && raw[i].0 != "version" && "Filename" !in raw[i].1
    ensures Processed(raw, lower, urlencode).Err?
  {
    NonVersionHas(raw, i);
    ProcessedOk(raw, lower, urlencode);
  }
}
