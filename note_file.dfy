/**
 * The on-disk note format of the desktop backend (src-tauri/src/lib.rs).
 *
 * Every block lives in its own file `<id>.md`: a one-line HTML comment that
 * carries the block's metadata as JSON, a blank line, then the markdown body.
 * `save_block` writes that text, `load_notes` reads every `.md` file of the
 * notes directory back and sorts the result by id, `delete_block` removes the
 * file when it exists.
 *
 * The directory is a list of (file name, text) entries; the JSON encoder and
 * decoder are an abstract pair of functions.
 */
module NoteFile {
  import opened Common

  /** The record the backend reads and writes (it has no `order` and no `tags`). */
  datatype NoteRecord = NoteRecord(id: string, title: string, content: string, isCollapsed: bool)

  /** A JSON value, as the decoder hands it back. */
  datatype Json =
    | JNull
    | JBool(b: bool)
    | JNumber(n: int)
    | JString(s: string)
    | JArray(items: seq<Json>)
    | JObject(fields: map<string, Json>)

  /** A JSON text encoder and a JSON text decoder; neither is modelled further. */
  datatype JsonCodec = JsonCodec(encode: Json -> string, decode: string -> Option<Json>)

  /**
   * What the round trip needs of the codec on one value: decoding its text
   * gives the value back, and the text is one line (a JSON encoder escapes
   * line breaks inside strings and emits none between tokens).
   */
  predicate ReadsBack(codec: JsonCodec, v: Json) {
    codec.decode(codec.encode(v)) == Some(v) && '\n' !in codec.encode(v)
  }

  const MetaPrefix: string := "<!-- "
  const MetaSuffix: string := " -->"
  const DefaultTitle: string := "Untitled"
  const HeadingPrefix: string := "# "

  /** `value.get(key)`: a field of a JSON object; nothing for any other value. */
  function Field(v: Json, key: string): Option<Json> {
    if v.JObject? && key in v.fields then Some(v.fields[key]) else None
  }

  // ---------------------------------------------------------------------------
  // save_block

  /** The metadata object `save_block` serialises; the two timestamps are never read back. */
  function Metadata(b: NoteRecord, createdAt: string, updatedAt: string): Json {
    JObject(map[
      "title" := JString(b.title),
      "isCollapsed" := JBool(b.isCollapsed),
      "createdAt" := JString(createdAt),
      "updatedAt" := JString(updatedAt)])
  }

  function FileName(id: string): string {
    id + ".md"
  }

  /** The header line `<!-- {metadata} -->`. */
  function HeaderLine(metadata: string): string {
    MetaPrefix + metadata + MetaSuffix
  }

  /** The whole text of the note file: header line, blank line, content. */
  function NoteText(codec: JsonCodec, b: NoteRecord, createdAt: string, updatedAt: string): (r: string)
    ensures StartsWith(r, MetaPrefix) && EndsWith(r, b.content)
  {
    HeaderLine(codec.encode(Metadata(b, createdAt, updatedAt))) + "\n\n" + b.content
  }

  // ---------------------------------------------------------------------------
  // Lines of a text, as Rust's `str::lines` gives them, and `join("\n")`

  /** Drop one carriage return at the end of a line. */
  function StripCr(line: string): (r: string)
    ensures '\r' !in line ==> r == line
    ensures forall c :: c in r ==> c in line
  {
    if |line| > 0 && line[|line| - 1] == '\r' then line[..|line| - 1] else line
  }

  /**
   * Split at each '\n'; a '\r' just before a '\n' belongs to the line break;
   * a final line break does not start an empty last line.
   */
  function Lines(text: string): (r: seq<string>)
    ensures text != "" ==> |r| > 0
    ensures forall k :: 0 <= k < |r| ==> '\n' !in r[k]
    decreases |text|
  {
    if text == [] then []
    else match IndexOf(text, '\n')
      case None => [text]
      case Some(i) => [StripCr(text[..i])] + Lines(text[i + 1..])
  }

  function Join(lines: seq<string>, sep: string): string
    decreases |lines|
  {
    if |lines| == 0 then ""
    else if |lines| == 1 then lines[0]
    else lines[0] + sep + Join(lines[1..], sep)
  }

  // ---------------------------------------------------------------------------
  // load_notes, one file

  predicate IsHeader(line: string) {
    StartsWith(line, MetaPrefix) && EndsWith(line, MetaSuffix)
  }

  /**
   * The slice `line[5..len-4]` exactly as written: it fails (Rust panics)
   * when the 5-byte prefix and the 4-byte suffix overlap.
   */
  function MetadataSliceAsWritten(line: string): (r: Option<string>)
    requires IsHeader(line)
    ensures r.Some? <==> |line| >= |MetaPrefix| + |MetaSuffix|
    ensures r.Some? ==> HeaderLine(r.value) == line
  {
    if |MetaPrefix| <= |line| - |MetaSuffix| then
      var m := line[|MetaPrefix|..|line| - |MetaSuffix|];
      assert line == line[..|MetaPrefix|] + m + line[|line| - |MetaSuffix|..];
      Some(m)
    else None
  }

  /**
   * The metadata text of a header line, with the overlapping case read as
   * empty metadata (which the decoder then rejects, keeping the defaults).
   */
  function MetadataText(line: string): (r: string)
    requires IsHeader(line)
    ensures |line| >= |MetaPrefix| + |MetaSuffix| ==> HeaderLine(r) == line
    ensures |line| < |MetaPrefix| + |MetaSuffix| ==> r == ""
  {
    match MetadataSliceAsWritten(line)
    case Some(m) => m
    case None => ""
  }

  /** The first line is the metadata header. */
  predicate HasHeader(lines: seq<string>) {
    |lines| > 0 && IsHeader(lines[0])
  }

  /** Index of the line after the header (0 when there is no header). */
  function ContentStart(lines: seq<string>): nat {
    if HasHeader(lines) then 1 else 0
  }

  /** The decoded metadata, when there is a header and its JSON parses. */
  function MetadataOf(codec: JsonCodec, lines: seq<string>): Option<Json> {
    if HasHeader(lines) then codec.decode(MetadataText(lines[0])) else None
  }

  /** `isCollapsed` from the metadata when present as a boolean, else false. */
  function CollapsedOf(meta: Option<Json>): bool {
    if meta.Some? then
      match Field(meta.value, "isCollapsed")
      case Some(JBool(b)) => b
      case _ => false
    else false
  }

  /** `title` from the metadata when present as a string, else "Untitled". */
  function MetaTitleOf(meta: Option<Json>): string {
    if meta.Some? then
      match Field(meta.value, "title")
      case Some(JString(t)) => t
      case _ => DefaultTitle
    else DefaultTitle
  }

  /** The markdown-heading fallback applies: still "Untitled" and the line at content_start is `# ...`. */
  predicate HeadingFallback(title: string, lines: seq<string>) {
    title == DefaultTitle && |lines| > ContentStart(lines) && StartsWith(lines[ContentStart(lines)], HeadingPrefix)
  }

  function TitleOf(codec: JsonCodec, lines: seq<string>): string {
    var t := MetaTitleOf(MetadataOf(codec, lines));
    if HeadingFallback(t, lines) then lines[ContentStart(lines)][|HeadingPrefix|..] else t
  }

  /** The lines after content_start, joined; the line at content_start itself is skipped. */
  function BodyOf(lines: seq<string>): string {
    var k := ContentStart(lines);
    if |lines| > k + 1 then Join(lines[k + 1..], "\n") else ""
  }

  /** One file of `load_notes`: the id is the file stem, the rest comes from the text. */
  function ParseNote(codec: JsonCodec, id: string, text: string): NoteRecord {
    var lines := Lines(text);
    NoteRecord(id, TitleOf(codec, lines), BodyOf(lines), CollapsedOf(MetadataOf(codec, lines)))
  }

  /**
   * The defaults: a note is collapsed exactly when its header decodes to an
   * object whose `isCollapsed` is the boolean true; the metadata sets the
   * title only through a string `title` field; and without a header or a
   * `# ` heading the note is "Untitled".
   */
  lemma ParseNoteDefaults(codec: JsonCodec, id: string, text: string)
    ensures ParseNote(codec, id, text).id == id
    ensures ParseNote(codec, id, text).isCollapsed ==>
              HasHeader(Lines(text)) && MetadataOf(codec, Lines(text)).Some?
    ensures ParseNote(codec, id, text).isCollapsed <==>
              MetadataOf(codec, Lines(text)).Some? &&
              Field(MetadataOf(codec, Lines(text)).value, "isCollapsed") == Some(JBool(true))
    ensures MetadataOf(codec, Lines(text)).Some? &&
            (Field(MetadataOf(codec, Lines(text)).value, "title").None? ||
             !Field(MetadataOf(codec, Lines(text)).value, "title").value.JString?) &&
            !HeadingFallback(DefaultTitle, Lines(text)) ==>
              ParseNote(codec, id, text).title == DefaultTitle
    ensures MetadataOf(codec, Lines(text)).Some? &&
            Field(MetadataOf(codec, Lines(text)).value, "title").Some? &&
            Field(MetadataOf(codec, Lines(text)).value, "title").value.JString? &&
            Field(MetadataOf(codec, Lines(text)).value, "title").value.s != DefaultTitle ==>
              ParseNote(codec, id, text).title == Field(MetadataOf(codec, Lines(text)).value, "title").value.s
    ensures !HasHeader(Lines(text)) && !HeadingFallback(DefaultTitle, Lines(text)) ==>
              ParseNote(codec, id, text).title == DefaultTitle && !ParseNote(codec, id, text).isCollapsed
  {
  }

  // ---------------------------------------------------------------------------
  // Reading back what was written

  /** A line break after a break-free first line splits the text there. */
  lemma {:induction false} LinesCons(a: string, b: string)
    requires '\n' !in a
    ensures Lines(a + "\n" + b) == [StripCr(a)] + Lines(b)
  {
    var t := a + "\n" + b;
    assert IndexOf(t, '\n') == Some(|a|) by {
      assert t[|a|] == '\n';
      assert forall k :: 0 <= k < |a| ==> t[k] == a[k];
    }
    assert t[..|a|] == a;
    assert t[|a| + 1..] == b;
  }

  /** Joining the lines of a body with no '\r' and no final line break gives the body back. */
  lemma {:induction false} JoinLines(c: string)
    requires '\r' !in c
    requires c == "" || c[|c| - 1] != '\n'
    ensures Join(Lines(c), "\n") == c
    decreases |c|
  {
    if c != "" {
      match IndexOf(c, '\n')
      case None =>
      case Some(i) =>
        var rest := c[i + 1..];
        assert c == c[..i] + "\n" + rest;
        assert rest != "";
        assert '\r' !in rest && rest[|rest| - 1] == c[|c| - 1];
        JoinLines(rest);
    }
  }

  /** The header `save_block` writes is recognised, and its metadata text is cut out exactly. */
  lemma HeaderLineInverse(metadata: string)
    ensures IsHeader(HeaderLine(metadata))
    ensures MetadataText(HeaderLine(metadata)) == metadata
  {
    var h := HeaderLine(metadata);
    assert h[..|MetaPrefix|] == MetaPrefix;
    assert h[|h| - |MetaSuffix|..] == MetaSuffix;
    assert h[|MetaPrefix|..|h| - |MetaSuffix|] == metadata;
  }

  /** The header line carries no line break when the metadata carries none. */
  lemma HeaderLineOneLine(metadata: string)
    requires '\n' !in metadata
    ensures '\n' !in HeaderLine(metadata)
    ensures StripCr(HeaderLine(metadata)) == HeaderLine(metadata)
  {
    var h := HeaderLine(metadata);
    assert h == MetaPrefix + metadata + MetaSuffix;
    assert h[|h| - 1] == '>';
  }

  /**
   * Round trip of `save_block` and `load_notes` on one file: the block read
   * back from the text written for it is the block itself, when its body has
   * no carriage return and no final line break and the codec reads its own
   * metadata back.
   */
  lemma RoundTrip(codec: JsonCodec, b: NoteRecord, createdAt: string, updatedAt: string)
    requires ReadsBack(codec, Metadata(b, createdAt, updatedAt))
    requires '\r' !in b.content
    requires b.content == "" || b.content[|b.content| - 1] != '\n'
    ensures ParseNote(codec, b.id, NoteText(codec, b, createdAt, updatedAt)) == b
  {
    var meta := Metadata(b, createdAt, updatedAt);
    var h := HeaderLine(codec.encode(meta));
    var lines := Lines(NoteText(codec, b, createdAt, updatedAt));
    SavedLines(codec.encode(meta), b.content);
    HeaderLineInverse(codec.encode(meta));
    assert MetadataOf(codec, lines) == Some(meta);
    MetadataFields(b, createdAt, updatedAt);
    assert !StartsWith(lines[1], HeadingPrefix);
    assert TitleOf(codec, lines) == b.title;
    if b.content != "" {
      assert lines[2..] == Lines(b.content);
      JoinLines(b.content);
    }
    assert BodyOf(lines) == b.content;
  }

  /** The lines of a saved file: the header, the blank line, then the body's lines. */
  lemma SavedLines(metadata: string, content: string)
    requires '\n' !in metadata
    ensures Lines(HeaderLine(metadata) + "\n\n" + content) == [HeaderLine(metadata), ""] + Lines(content)
  {
    var h := HeaderLine(metadata);
    HeaderLineOneLine(metadata);
    assert h + "\n\n" + content == h + "\n" + ("" + "\n" + content);
    LinesCons(h, "" + "\n" + content);
    LinesCons("", content);
  }

  /** The metadata object holds the title and the collapse flag under their keys. */
  lemma MetadataFields(b: NoteRecord, createdAt: string, updatedAt: string)
    ensures MetaTitleOf(Some(Metadata(b, createdAt, updatedAt))) == b.title
    ensures CollapsedOf(Some(Metadata(b, createdAt, updatedAt))) == b.isCollapsed
  {
    var meta := Metadata(b, createdAt, updatedAt);
    assert "title" != "isCollapsed" && "title" != "createdAt" && "title" != "updatedAt";
    assert "isCollapsed" != "createdAt" && "isCollapsed" != "updatedAt";
    assert Field(meta, "title") == Some(JString(b.title));
    assert Field(meta, "isCollapsed") == Some(JBool(b.isCollapsed));
  }

  /**
   * A file without a metadata header whose first line is a markdown heading
   * `# t`: the title is t, collapse is off, and the body is what follows.
   */
  lemma HeadingNoteReads(codec: JsonCodec, id: string, t: string, body: string)
    requires '\n' !in t && '\r' !in t
    requires '\r' !in body
    requires body == "" || body[|body| - 1] != '\n'
    ensures ParseNote(codec, id, HeadingPrefix + t + "\n" + body) == NoteRecord(id, t, body, false)
  {
    var first := HeadingPrefix + t;
    assert HeadingPrefix + t + "\n" + body == first + "\n" + body;
    assert '\n' !in first && '\r' !in first;
    LinesCons(first, body);
    var lines := Lines(first + "\n" + body);
    assert lines == [first] + Lines(body);
    assert !StartsWith(first, MetaPrefix) by { assert first[0] != MetaPrefix[0]; }
    assert StartsWith(first, HeadingPrefix);
    assert first[|HeadingPrefix|..] == t;
    if body != "" {
      assert lines[1..] == Lines(body);
      JoinLines(body);
    }
  }

  /**
   * A file whose first line is neither a header nor a heading loses that
   * line: the block is "Untitled", not collapsed, and its body starts at the
   * second line.
   */
  lemma PlainFirstLineDropped(codec: JsonCodec, id: string, first: string, body: string)
    requires '\n' !in first && '\r' !in first
    requires !StartsWith(first, MetaPrefix) && !StartsWith(first, HeadingPrefix)
    requires '\r' !in body
    requires body == "" || body[|body| - 1] != '\n'
    ensures ParseNote(codec, id, first + "\n" + body) == NoteRecord(id, DefaultTitle, body, false)
  {
    LinesCons(first, body);
    var lines := Lines(first + "\n" + body);
    assert lines == [first] + Lines(body);
    if body != "" {
      assert lines[1..] == Lines(body);
      JoinLines(body);
    }
  }

  /**
   * A header whose JSON does not decode keeps both defaults, and the header
   * line is still skipped (together with the line after it).
   */
  lemma UndecodableHeaderKeepsDefaults(codec: JsonCodec, id: string, header: string, second: string, body: string)
    requires IsHeader(header) && '\n' !in header && '\r' !in header
    requires codec.decode(MetadataText(header)) == None
    requires '\n' !in second && '\r' !in second && !StartsWith(second, HeadingPrefix)
    requires '\r' !in body
    requires body == "" || body[|body| - 1] != '\n'
    ensures ParseNote(codec, id, header + "\n" + (second + "\n" + body)) == NoteRecord(id, DefaultTitle, body, false)
  {
    TwoLines(header, second, body);
    var lines := Lines(header + "\n" + (second + "\n" + body));
    assert HasHeader(lines) && ContentStart(lines) == 1;
    assert MetadataOf(codec, lines) == None;
    assert !HeadingFallback(DefaultTitle, lines);
    assert TitleOf(codec, lines) == DefaultTitle;
    if body != "" {
      assert lines[2..] == Lines(body);
      JoinLines(body);
    }
    assert BodyOf(lines) == body;
  }

  /** Two break-free lines in front of a text. */
  lemma TwoLines(a: string, b: string, rest: string)
    requires '\n' !in a && '\r' !in a && '\n' !in b && '\r' !in b
    ensures Lines(a + "\n" + (b + "\n" + rest)) == [a, b] + Lines(rest)
  {
    LinesCons(a, b + "\n" + rest);
    LinesCons(b, rest);
  }

  /** A final line break in the body is not read back. */
  lemma FinalLineBreakLost(codec: JsonCodec, b: NoteRecord, createdAt: string, updatedAt: string)
    requires ReadsBack(codec, Metadata(b, createdAt, updatedAt))
    requires b.content == "x\n"
    ensures ParseNote(codec, b.id, NoteText(codec, b, createdAt, updatedAt)).content == "x"
  {
    var m := codec.encode(Metadata(b, createdAt, updatedAt));
    var h := HeaderLine(m);
    HeaderLineOneLine(m);
    HeaderLineInverse(m);
    var text := NoteText(codec, b, createdAt, updatedAt);
    assert text == h + "\n" + ("" + "\n" + ("x" + "\n" + ""));
    LinesCons(h, "" + "\n" + ("x" + "\n" + ""));
    LinesCons("", "x" + "\n" + "");
    LinesCons("x", "");
    assert Lines(text) == [h, "", "x"];
  }

  // ---------------------------------------------------------------------------
  // The overlapping header "<!-- -->"

  /** The 8-byte line `<!-- -->` passes the header test, yet the slice bounds cross. */
  lemma EmptyCommentPanics()
    ensures IsHeader("<!-- -->")
    ensures MetadataSliceAsWritten("<!-- -->") == None
  {
    assert "<!-- -->"[..5] == MetaPrefix;
    assert "<!-- -->"[4..] == MetaSuffix;
  }

  /** It is the only header line on which the slice fails. */
  lemma OnlyEmptyCommentPanics(line: string)
    requires IsHeader(line)
    requires MetadataSliceAsWritten(line) == None
    ensures line == "<!-- -->"
  {
    var n := |line|;
    assert line[..5] == MetaPrefix;
    assert line[n - 4..] == MetaSuffix;
    assert line[n - 4] == ' ';
    assert line[0] == '<' && line[1] == '!' && line[2] == '-' && line[3] == '-' && line[4] == ' ';
    assert n == 8;
    assert line[5] == '-' && line[6] == '-' && line[7] == '>';
  }

  // ---------------------------------------------------------------------------
  // The notes directory

  /** A directory entry; `text` is nothing when the file cannot be read as UTF-8 text. */
  datatype Entry = Entry(name: string, text: Option<string>)

  /** What `load_notes` finds where the notes directory should be. */
  datatype NotesDir =
    | NoDataDir                    // the platform has no data directory
    | Missing                      // `<data>/zenus` does not exist
    | Unlistable                   // listing the directory fails
    | Listing(entries: seq<Entry>) // the entries, in the order the listing gives them

  datatype LoadError = NoDataDirectory | ReadDirFailed | ReadFileFailed(name: string)

  /**
   * The file stem of a name whose extension is exactly "md", as Rust's
   * `Path::extension` and `Path::file_stem` split it: at the last '.', unless
   * that '.' is the first character.
   */
  function MdStem(name: string): (r: Option<string>)
    ensures r.Some? ==> r.value != "" && name == FileName(r.value)
  {
    match LastIndexOf(name, '.')
    case None => None
    case Some(p) =>
      if p > 0 && name[p + 1..] == "md" then
        assert name == name[..p] + ".md";
        Some(name[..p])
      else None
  }

  /** The stem of `<id>.md` is the id, except for the empty id (".md" is a hidden file without extension). */
  lemma MdStemOfFileName(id: string)
    ensures MdStem(FileName(id)) == if id == "" then None else Some(id)
  {
    var n := FileName(id);
    assert n[|id|] == '.';
    var p := LastIndexOf(n, '.');
    assert p == Some(|id|) by {
      assert forall k :: |id| < k < |n| ==> n[k] in "md";
    }
    assert n[..|id|] == id;
    assert n[|id| + 1..] == "md";
  }

  /** `e` is a `.md` file that reads as text and parses to `r`. */
  predicate IsNoteOf(codec: JsonCodec, e: Entry, r: NoteRecord) {
    MdStem(e.name).Some? && e.text.Some? && r == ParseNoteOf(codec, e)
  }

  /**
   * The `for` loop of `load_notes`: `.md` entries are parsed in listing
   * order, other entries are skipped, and the first unreadable `.md` file
   * ends the loop with an error.
   */
  function Collect(codec: JsonCodec, entries: seq<Entry>): Result<seq<NoteRecord>, LoadError>
    decreases |entries|
  {
    if entries == [] then Ok([])
    else
      var e := entries[|entries| - 1];
      match Collect(codec, entries[..|entries| - 1])
      case Err(err) => Err(err)
      case Ok(notes) =>
        match MdStem(e.name)
        case None => Ok(notes)
        case Some(stem) =>
          match e.text
          case None => Err(ReadFileFailed(e.name))
          case Some(text) => Ok(notes + [ParseNote(codec, stem, text)])
  }

  /** The loop succeeds exactly when every `.md` entry can be read. */
  lemma {:induction false} CollectOk(codec: JsonCodec, entries: seq<Entry>)
    ensures Collect(codec, entries).Ok? <==>
              forall e :: e in entries && MdStem(e.name).Some? ==> e.text.Some?
    decreases |entries|
  {
    if entries != [] {
      var init := entries[..|entries| - 1];
      assert entries == init + [entries[|entries| - 1]];
      CollectOk(codec, init);
    }
  }

  /** When it succeeds, it yields exactly the notes parsed from the `.md` entries. */
  lemma {:induction false} CollectMembers(codec: JsonCodec, entries: seq<Entry>, r: NoteRecord)
    requires Collect(codec, entries).Ok?
    ensures r in Collect(codec, entries).value <==> exists e :: e in entries && IsNoteOf(codec, e, r)
    decreases |entries|
  {
    if entries != [] {
      var init := entries[..|entries| - 1];
      var last := entries[|entries| - 1];
      assert entries == init + [last];
      var notes := Collect(codec, init).value;
      CollectMembers(codec, init, r);
      if MdStem(last.name).Some? {
        assert Collect(codec, entries).value == notes + [ParseNoteOf(codec, last)];
      } else {
        assert Collect(codec, entries).value == notes;
        assert !IsNoteOf(codec, last, r);
      }
      if r in notes {
        var e :| e in init && IsNoteOf(codec, e, r);
        assert e in entries;
      } else if exists e :: e in entries && IsNoteOf(codec, e, r) {
        var e :| e in entries && IsNoteOf(codec, e, r);
        assert e == last;
      }
      if r !in notes && r in Collect(codec, entries).value {
        assert IsNoteOf(codec, last, r);
      }
    }
  }

  /** The note a readable `.md` entry parses to. */
  function ParseNoteOf(codec: JsonCodec, e: Entry): NoteRecord
    requires MdStem(e.name).Some? && e.text.Some?
  {
    ParseNote(codec, MdStem(e.name).value, e.text.value)
  }

  /** Once the loop has failed on a prefix, it fails with the same error on the whole listing. */
  lemma {:induction false} CollectErrStays(codec: JsonCodec, entries: seq<Entry>, i: nat)
    requires i <= |entries|
    requires Collect(codec, entries[..i]).Err?
    ensures Collect(codec, entries) == Collect(codec, entries[..i])
    decreases |entries| - i
  {
    if i < |entries| {
      assert entries[..i + 1][..i] == entries[..i];
      CollectErrStays(codec, entries, i + 1);
    } else {
      assert entries[..i] == entries;
    }
  }

  // ---------------------------------------------------------------------------
  // Sorting by id: `String`'s `Ord`, byte-wise lexicographic, which on
  // Unicode scalar values is the same as comparing code points in order

  predicate IdLe(a: string, b: string)
    decreases |a|
  {
    |a| == 0 || (|b| > 0 && (a[0] < b[0] || (a[0] == b[0] && IdLe(a[1..], b[1..]))))
  }

  lemma {:induction false} IdLeTotal(a: string, b: string)
    ensures IdLe(a, b) || IdLe(b, a)
    decreases |a|
  {
    if |a| > 0 && |b| > 0 && a[0] == b[0] {
      IdLeTotal(a[1..], b[1..]);
    }
  }

  lemma {:induction false} IdLeTrans(a: string, b: string, c: string)
    requires IdLe(a, b) && IdLe(b, c)
    ensures IdLe(a, c)
    decreases |a|
  {
    if |a| > 0 && a[0] == b[0] && b[0] == c[0] {
      IdLeTrans(a[1..], b[1..], c[1..]);
    }
  }

  lemma {:induction false} IdLeAntisym(a: string, b: string)
    requires IdLe(a, b) && IdLe(b, a)
    ensures a == b
    decreases |a|
  {
    if |a| > 0 {
      IdLeAntisym(a[1..], b[1..]);
      assert a == [a[0]] + a[1..] && b == [b[0]] + b[1..];
    }
  }

  predicate SortedById(s: seq<NoteRecord>) {
    forall i, j :: 0 <= i < j < |s| ==> IdLe(s[i].id, s[j].id)
  }

  /** Inserting x into a sorted run at a place where it fits keeps the run sorted. */
  lemma InsertSorted(p: seq<NoteRecord>, j: nat, x: NoteRecord)
    requires j <= |p| && SortedById(p)
    requires 0 < j ==> IdLe(p[j - 1].id, x.id)
    requires forall k :: j <= k < |p| ==> IdLe(x.id, p[k].id)
    ensures SortedById(p[..j] + [x] + p[j..])
  {
    var t := p[..j] + [x] + p[j..];
    forall a, b | 0 <= a < b < |t| ensures IdLe(t[a].id, t[b].id) {
      if b < j {
        assert t[a] == p[a] && t[b] == p[b];
      } else if a < j && b == j {
        assert t[a] == p[a] && t[b] == x;
        if a < j - 1 {
          assert IdLe(p[a].id, p[j - 1].id);
          IdLeTrans(p[a].id, p[j - 1].id, x.id);
        }
      } else if a < j {
        assert t[a] == p[a] && t[b] == p[b - 1];
        assert IdLe(p[a].id, p[b - 1].id);
      } else if a == j {
        assert t[a] == x && t[b] == p[b - 1];
      } else {
        assert t[a] == p[a - 1] && t[b] == p[b - 1];
        assert IdLe(p[a - 1].id, p[b - 1].id);
      }
    }
  }

  /** `sort_by(|a, b| a.id.cmp(&b.id))` on the collected notes, in place. */
  method SortById(a: array<NoteRecord>)
    modifies a
    ensures SortedById(a[..])
    ensures multiset(a[..]) == multiset(old(a[..]))
  {
    var i := 1;
    while i < a.Length
      invariant a.Length == 0 || 1 <= i <= a.Length
      invariant SortedById(a[..if a.Length == 0 then 0 else i])
      invariant multiset(a[..]) == multiset(old(a[..]))
    {
      SinkLast(a, i);
      i := i + 1;
    }
    assert a[..if a.Length == 0 then 0 else i] == a[..];
  }

  /** Move `a[i]` left past every larger id, so that `a[..i + 1]` is sorted. */
  method SinkLast(a: array<NoteRecord>, i: nat)
    requires i < a.Length && SortedById(a[..i])
    modifies a
    ensures SortedById(a[..i + 1])
    ensures multiset(a[..]) == multiset(old(a[..]))
  {
    ghost var p := a[..i];
    ghost var x := a[i];
    ghost var tail := a[i + 1..];
    assert a[..] == p + [x] + tail;
    assert p[..i] == p && p[i..] == [];
    var j := i;
    while j > 0 && !IdLe(a[j - 1].id, a[j].id)
      invariant 0 <= j <= i
      invariant a[..] == p[..j] + [x] + p[j..] + tail
      invariant forall k :: j <= k < i ==> IdLe(x.id, p[k].id)
    {
      SplitAt(p, j, x, tail);
      IdLeTotal(a[j - 1].id, a[j].id);
      ghost var before := a[..];
      a[j - 1], a[j] := a[j], a[j - 1];
      assert a[..] == before[j - 1 := before[j]][j := before[j - 1]];
      SwapInSplit(p, j, x, tail);
      j := j - 1;
    }
    if j > 0 {
      SplitAt(p, j, x, tail);
    }
    SinkDone(p, j, x, tail);
  }

  /** Where the moving element stops, the prefix is sorted and nothing was lost. */
  lemma SinkDone(p: seq<NoteRecord>, j: nat, x: NoteRecord, tail: seq<NoteRecord>)
    requires j <= |p| && SortedById(p)
    requires 0 < j ==> IdLe(p[j - 1].id, x.id)
    requires forall k :: j <= k < |p| ==> IdLe(x.id, p[k].id)
    ensures SortedById((p[..j] + [x] + p[j..] + tail)[..|p| + 1])
    ensures multiset(p[..j] + [x] + p[j..] + tail) == multiset(p + [x] + tail)
  {
    InsertSorted(p, j, x);
    assert (p[..j] + [x] + p[j..] + tail)[..|p| + 1] == p[..j] + [x] + p[j..];
    InsertKeepsMultiset(p, j, x, tail);
  }

  lemma InsertKeepsMultiset(p: seq<NoteRecord>, j: nat, x: NoteRecord, tail: seq<NoteRecord>)
    requires j <= |p|
    ensures multiset(p[..j] + [x] + p[j..] + tail) == multiset(p + [x] + tail)
  {
    assert p == p[..j] + p[j..];
    calc {
      multiset(p[..j] + [x] + p[j..] + tail);
      multiset(p[..j]) + multiset([x]) + multiset(p[j..]) + multiset(tail);
      multiset(p[..j]) + multiset(p[j..]) + multiset([x]) + multiset(tail);
      multiset(p + [x] + tail);
    }
  }

  /** The two cells around the moving element. */
  lemma SplitAt(p: seq<NoteRecord>, j: nat, x: NoteRecord, tail: seq<NoteRecord>)
    requires 0 < j <= |p|
    ensures (p[..j] + [x] + p[j..] + tail)[j - 1] == p[j - 1]
    ensures (p[..j] + [x] + p[j..] + tail)[j] == x
  {
  }

  /** Exchanging the moving element with its left neighbour moves the split one place left. */
  lemma SwapInSplit(p: seq<NoteRecord>, j: nat, x: NoteRecord, tail: seq<NoteRecord>)
    requires 0 < j <= |p|
    ensures (p[..j] + [x] + p[j..] + tail)[j - 1 := x][j := p[j - 1]] == p[..j - 1] + [x] + p[j - 1..] + tail
  {
    var s := p[..j] + [x] + p[j..] + tail;
    var t := p[..j - 1] + [x] + p[j - 1..] + tail;
    var u := s[j - 1 := x][j := p[j - 1]];
    assert |u| == |t|;
    forall k | 0 <= k < |t| ensures u[k] == t[k] {
      if k < j - 1 {
        assert u[k] == s[k] == p[k] && t[k] == p[k];
      } else if k == j - 1 || k == j {
      } else if k <= |p| {
        assert u[k] == s[k] == p[k - 1] && t[k] == p[k - 1];
      } else {
        assert u[k] == s[k] == tail[k - |p| - 1] && t[k] == tail[k - |p| - 1];
      }
    }
  }

  // ---------------------------------------------------------------------------
  // load_notes

  /**
   * `load_notes`: no notes directory is an empty list; otherwise every
   * `.md` file is parsed and the notes come back sorted by id.
   */
  method LoadNotes(codec: JsonCodec, dir: NotesDir) returns (r: Result<seq<NoteRecord>, LoadError>)
    ensures dir.NoDataDir? ==> r == Err(NoDataDirectory)
    ensures dir.Missing? ==> r == Ok([])
    ensures dir.Unlistable? ==> r == Err(ReadDirFailed)
    ensures dir.Listing? && Collect(codec, dir.entries).Err? ==> r == Collect(codec, dir.entries)
    ensures dir.Listing? && Collect(codec, dir.entries).Ok? ==>
              r.Ok? && SortedById(r.value) && multiset(r.value) == multiset(Collect(codec, dir.entries).value)
  {
    match dir {
      case NoDataDir => return Err(NoDataDirectory);
      case Missing => return Ok([]);
      case Unlistable => return Err(ReadDirFailed);
      case Listing(entries) =>
        var notes: seq<NoteRecord> := [];
        var i := 0;
        while i < |entries|
          invariant i <= |entries|
          invariant Collect(codec, entries[..i]) == Ok(notes)
        {
          var e := entries[i];
          assert entries[..i + 1][..i] == entries[..i];
          match MdStem(e.name) {
            case None =>
            case Some(stem) =>
              match e.text {
                case None =>
                  CollectErrStays(codec, entries, i + 1);
                  return Err(ReadFileFailed(e.name));
                case Some(text) =>
                  notes := notes + [ParseNote(codec, stem, text)];
              }
          }
          i := i + 1;
        }
        assert entries[..i] == entries;
        var a := new NoteRecord[|notes|](k requires 0 <= k < |notes| => notes[k]);
        assert a[..] == notes;
        SortById(a);
        return Ok(a[..]);
    }
  }

  // ---------------------------------------------------------------------------
  // save_block and delete_block on the directory

  /** The first entry with this name, if any. */
  function FindFile(dir: seq<Entry>, name: string): (r: Option<nat>)
    ensures r.Some? ==> r.value < |dir| && dir[r.value].name == name
    ensures r.None? ==> forall e :: e in dir ==> e.name != name
  {
    if |dir| == 0 then None
    else if dir[0].name == name then Some(0)
    else match FindFile(dir[1..], name)
      case None => None
      case Some(k) => Some(k + 1)
  }

  /** A real directory holds at most one entry per name. */
  predicate NamesUnique(dir: seq<Entry>) {
    forall i, j :: 0 <= i < j < |dir| ==> dir[i].name != dir[j].name
  }

  /**
   * `fs::write`: the file's text is replaced, or the file is added. In a
   * directory with one entry per name, the new text is then the only entry
   * under that name.
   */
  function WriteFile(dir: seq<Entry>, name: string, text: string): (r: seq<Entry>)
    ensures Entry(name, Some(text)) in r
    ensures forall e :: e in r ==> e == Entry(name, Some(text)) || e in dir
    ensures forall e :: e in dir && e.name != name ==> e in r
    ensures NamesUnique(dir) ==>
              NamesUnique(r) && forall e :: e in r && e.name == name ==> e == Entry(name, Some(text))
  {
    match FindFile(dir, name)
    case Some(k) =>
      var r := dir[k := Entry(name, Some(text))];
      assert r[k] == Entry(name, Some(text));
      assert forall e :: e in dir && e.name != name ==> e in r by {
        forall e | e in dir && e.name != name ensures e in r {
          var i :| 0 <= i < |dir| && dir[i] == e;
          assert r[i] == e;
        }
      }
      assert forall i :: 0 <= i < |r| ==> r[i].name == dir[i].name;
      r
    case None =>
      var r := dir + [Entry(name, Some(text))];
      assert forall i :: 0 <= i < |dir| ==> r[i] == dir[i] && r[i] in dir;
      r
  }

  /** The directory after `save_block` succeeds. */
  function SaveNote(dir: seq<Entry>, codec: JsonCodec, b: NoteRecord, createdAt: string, updatedAt: string): (r: seq<Entry>)
    ensures Entry(FileName(b.id), Some(NoteText(codec, b, createdAt, updatedAt))) in r
    ensures forall e :: e in dir && e.name != FileName(b.id) ==> e in r
    ensures forall e :: e in r ==> e == Entry(FileName(b.id), Some(NoteText(codec, b, createdAt, updatedAt))) || e in dir
    ensures NamesUnique(dir) ==>
              NamesUnique(r) &&
              forall e :: e in r && e.name == FileName(b.id) ==>
                e == Entry(FileName(b.id), Some(NoteText(codec, b, createdAt, updatedAt)))
  {
    WriteFile(dir, FileName(b.id), NoteText(codec, b, createdAt, updatedAt))
  }

  /**
   * The directory after `delete_block`: the file `<id>.md` is removed if it
   * exists; when it does not, the command still succeeds and nothing changes.
   */
  function DeleteNote(dir: seq<Entry>, id: string): (r: seq<Entry>)
    ensures forall e :: e in r <==> e in dir && e.name != FileName(id)
    ensures (forall e :: e in dir ==> e.name != FileName(id)) ==> r == dir
  {
    if |dir| == 0 then []
    else if dir[0].name == FileName(id) then DeleteNote(dir[1..], id)
    else
      assert dir == [dir[0]] + dir[1..];
      [dir[0]] + DeleteNote(dir[1..], id)
  }

  lemma FileNameInjective(a: string, b: string)
    requires FileName(a) == FileName(b)
    ensures a == b
  {
    assert a == FileName(a)[..|a|] && b == FileName(b)[..|b|];
  }

  /**
   * Saving a block into a directory that loads makes the directory load that
   * very block (given what `RoundTrip` needs), next to every note of another
   * id that it loaded before.
   */
  lemma SavedNoteLoads(dir: seq<Entry>, codec: JsonCodec, b: NoteRecord, createdAt: string, updatedAt: string)
    requires Collect(codec, dir).Ok?
    requires b.id != ""
    requires ReadsBack(codec, Metadata(b, createdAt, updatedAt))
    requires '\r' !in b.content
    requires b.content == "" || b.content[|b.content| - 1] != '\n'
    ensures Collect(codec, SaveNote(dir, codec, b, createdAt, updatedAt)).Ok?
    ensures b in Collect(codec, SaveNote(dir, codec, b, createdAt, updatedAt)).value
    ensures forall r :: r in Collect(codec, dir).value && r.id != b.id ==>
              r in Collect(codec, SaveNote(dir, codec, b, createdAt, updatedAt)).value
    ensures NamesUnique(dir) ==>
              forall r :: r in Collect(codec, SaveNote(dir, codec, b, createdAt, updatedAt)).value ==>
                r == b || (r.id != b.id && r in Collect(codec, dir).value)
  {
    var saved := SaveNote(dir, codec, b, createdAt, updatedAt);
    var written := Entry(FileName(b.id), Some(NoteText(codec, b, createdAt, updatedAt)));
    CollectOk(codec, dir);
    CollectOk(codec, saved);
    MdStemOfFileName(b.id);
    RoundTrip(codec, b, createdAt, updatedAt);
    assert IsNoteOf(codec, written, b);
    CollectMembers(codec, saved, b);
    forall r | r in Collect(codec, dir).value && r.id != b.id
      ensures r in Collect(codec, saved).value
    {
      CollectMembers(codec, dir, r);
      var e :| e in dir && IsNoteOf(codec, e, r);
      if e.name == FileName(b.id) {
        FileNameInjective(MdStem(e.name).value, b.id);
      }
      assert e in saved;
      CollectMembers(codec, saved, r);
    }
    if NamesUnique(dir) {
      forall r | r in Collect(codec, saved).value
        ensures r == b || (r.id != b.id && r in Collect(codec, dir).value)
      {
        CollectMembers(codec, saved, r);
        var e :| e in saved && IsNoteOf(codec, e, r);
        if e != written {
          assert e in dir && e.name != FileName(b.id);
          assert e.name == FileName(r.id);
          CollectMembers(codec, dir, r);
        }
      }
    }
  }

  /**
   * After `delete_block` no note with that id loads, and every other note
   * that loaded before still does.
   */
  lemma DeletedNoteGone(dir: seq<Entry>, codec: JsonCodec, id: string)
    requires Collect(codec, dir).Ok?
    ensures Collect(codec, DeleteNote(dir, id)).Ok?
    ensures forall r :: r in Collect(codec, DeleteNote(dir, id)).value ==> r.id != id
    ensures forall r :: r in Collect(codec, dir).value && r.id != id ==>
              r in Collect(codec, DeleteNote(dir, id)).value
    ensures forall r :: r in Collect(codec, DeleteNote(dir, id)).value ==> r in Collect(codec, dir).value
  {
    var left := DeleteNote(dir, id);
    CollectOk(codec, dir);
    CollectOk(codec, left);
    forall r | r in Collect(codec, left).value ensures r.id != id {
      CollectMembers(codec, left, r);
      var e :| e in left && IsNoteOf(codec, e, r);
      assert e.name == FileName(r.id);
    }
    DeleteLoadsNothingNew(dir, codec, id);
    forall r | r in Collect(codec, dir).value && r.id != id
      ensures r in Collect(codec, left).value
    {
      CollectMembers(codec, dir, r);
      var e :| e in dir && IsNoteOf(codec, e, r);
      if e.name == FileName(id) {
        FileNameInjective(r.id, id);
      }
      CollectMembers(codec, left, r);
    }
  }

  /** Every note that loads after a delete loaded before it. */
  lemma DeleteLoadsNothingNew(dir: seq<Entry>, codec: JsonCodec, id: string)
    requires Collect(codec, dir).Ok? && Collect(codec, DeleteNote(dir, id)).Ok?
    ensures forall r :: r in Collect(codec, DeleteNote(dir, id)).value ==> r in Collect(codec, dir).value
  {
    var left := DeleteNote(dir, id);
    forall r | r in Collect(codec, left).value ensures r in Collect(codec, dir).value {
      CollectMembers(codec, left, r);
      var e :| e in left && IsNoteOf(codec, e, r);
      assert e in dir;
      CollectMembers(codec, dir, r);
    }
  }
}
