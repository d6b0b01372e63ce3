/** The parser undoes the printer. */
module ManifestRoundTrip {
  import opened Common
  import opened Manifests
  import opened ManifestText

  predicate AllSpace(s: string) { forall i :: 0 <= i < |s| ==> IsSpace(s[i]) }

  /** Free of the two characters that end or escape a string. */
  predicate Plain(s: string) { forall i :: 0 <= i < |s| ==> s[i] != '"' && s[i] != '\\' }

  lemma {:induction false} SkipSpaces(ws: string, rest: string)
    requires AllSpace(ws)
    ensures SkipSpace(ws + rest) == SkipSpace(rest)
  {
    if ws == "" {
      assert ws + rest == rest;
    } else {
      assert (ws + rest)[1..] == ws[1..] + rest;
      SkipSpaces(ws[1..], rest);
    }
  }

  lemma SkipTo(ws: string, c: char, rest: string)
    requires AllSpace(ws) && !IsSpace(c)
    ensures SkipSpace(ws + ([c] + rest)) == [c] + rest
    ensures Expect(ws + ([c] + rest), c) == Got((), rest)
    ensures Peek(ws + ([c] + rest)) == Got(c, [c] + rest)
  {
    SkipSpaces(ws, [c] + rest);
    assert ([c] + rest)[1..] == rest;
  }

  /** Reading back an escaped string gives the string. */
  lemma {:induction false} EscapedBack(s: string, rest: string, acc: string)
    ensures StringBody(Escape(s) + ("\"" + rest), acc) == Got(acc + s, rest)
    decreases |s|
  {
    var close := "\"" + rest;
    if s == "" {
      assert Escape(s) + close == close;
      assert close[1..] == rest && acc + s == acc;
    } else {
      var e := EscapeChar(s[0]);
      var t := Escape(s) + close;
      assert t == e + (Escape(s[1..]) + close);
      EscapedBack(s[1..], rest, acc + [s[0]]);
      assert acc + [s[0]] + s[1..] == acc + s;
      if |e| == 2 {
        assert t[0] == '\\' && Unescape(t[1]) == s[0] && t[2..] == Escape(s[1..]) + close;
      } else {
        assert t[0] == s[0] && t[1..] == Escape(s[1..]) + close;
      }
    }
  }

  /** Reading back a plain string gives the string. */
  lemma {:induction false} PlainBack(s: string, rest: string, acc: string)
    requires Plain(s)
    ensures StringBody(s + ("\"" + rest), acc) == Got(acc + s, rest)
    decreases |s|
  {
    var t := s + ("\"" + rest);
    if s == "" {
      assert t[1..] == rest && acc + s == acc;
    } else {
      assert t[0] == s[0] && t[1..] == s[1..] + ("\"" + rest);
      PlainBack(s[1..], rest, acc + [s[0]]);
      assert acc + [s[0]] + s[1..] == acc + s;
    }
  }

  lemma ReadEscaped(ws: string, s: string, rest: string)
    requires AllSpace(ws)
    ensures ParseString(ws + ("\"" + (Escape(s) + ("\"" + rest)))) == Got(s, rest)
  {
    SkipTo(ws, '"', Escape(s) + ("\"" + rest));
    EscapedBack(s, rest, "");
    assert "" + s == s;
  }

  lemma ReadPlain(ws: string, s: string, rest: string)
    requires AllSpace(ws) && Plain(s)
    ensures ParseString(ws + ("\"" + (s + ("\"" + rest)))) == Got(s, rest)
  {
    SkipTo(ws, '"', s + ("\"" + rest));
    PlainBack(s, rest, "");
    assert "" + s == s;
  }

  lemma DigitBack(d: nat)
    requires d < 10
    ensures IsDigit(DigitChar(d)) && DigitValue(DigitChar(d)) == d
  {
  }

  lemma DigitAppended(n: nat)
    requires n < TWO_64
    ensures IsDigit(DigitChar(n % 10)) && Wrap64(n / 10 * 10 + DigitValue(DigitChar(n % 10))) == n
  {
    DigitBack(n % 10);
  }

  lemma DigitsStep(c: char, rest: string, v: nat, any: bool)
    requires IsDigit(c)
    ensures Digits([c] + rest, v, any) == Digits(rest, Wrap64(v * 10 + DigitValue(c)), true)
  {
    assert ([c] + rest)[1..] == rest;
  }

  lemma DecimalIs(n: nat, rest: string)
    ensures n < 10 ==> Decimal(n) + rest == [DigitChar(n)] + rest && n % 10 == n && n / 10 == 0
    ensures n >= 10 ==> Decimal(n) + rest == Decimal(n / 10) + ([DigitChar(n % 10)] + rest)
  {
  }

  /** Reading the decimal form of a 64-bit number accumulates exactly that number. */
  lemma {:induction false} DecimalRead(n: nat, rest: string)
    requires n < TWO_64
    ensures Digits(Decimal(n) + rest, 0, false) == Digits(rest, n, true)
    decreases n
  {
    DigitAppended(n);
    DecimalIs(n, rest);
    if n < 10 {
      DigitsStep(DigitChar(n), rest, 0, false);
    } else {
      var more := [DigitChar(n % 10)] + rest;
      DecimalRead(n / 10, more);
      DigitsStep(DigitChar(n % 10), rest, n / 10, true);
    }
  }

  lemma ReadDecimal(ws: string, n: nat, rest: string)
    requires AllSpace(ws) && n < TWO_64 && rest != "" && !IsDigit(rest[0])
    ensures ParseUint(ws + (Decimal(n) + rest)) == Got(n, rest)
  {
    SkipSpaces(ws, Decimal(n) + rest);
    DecimalStarts(n);
    DecimalRead(n, rest);
  }

  lemma {:induction false} DecimalStarts(n: nat)
    ensures Decimal(n) != "" && IsDigit(Decimal(n)[0])
  {
    DigitBack(n % 10);
    if n >= 10 { DecimalStarts(n / 10); }
  }

  /** A key, its colon, and the text of the value. */
  lemma ReadKey(ws: string, key: string, rest: string)
    requires AllSpace(ws) && Plain(key)
    ensures ParseString(ws + ("\"" + (key + ("\"" + (":" + rest))))) == Got(key, ":" + rest)
    ensures Expect(":" + rest, ':') == Got((), rest)
  {
    ReadPlain(ws, key, ":" + rest);
    SkipTo("", ':', rest);
    assert "" + ([':'] + rest) == ":" + rest;
  }

  /** One line of the printed form: indentation, quoted key, colon, and the start of the value. */
  function Label(indent: string, key: string, v: string): string {
    indent + ("\"" + (key + ("\"" + (":" + v))))
  }

  lemma ReadLabel(indent: string, key: string, v: string, rest: string)
    requires AllSpace(indent) && Plain(key)
    ensures ParseString("\n" + (Label(indent, key, v) + rest)) == Got(key, ":" + (v + rest))
    ensures Expect(":" + (v + rest), ':') == Got((), v + rest)
  {
    assert "\n" + (Label(indent, key, v) + rest)
      == ("\n" + indent) + ("\"" + (key + ("\"" + (":" + (v + rest)))));
    ReadKey("\n" + indent, key, v + rest);
  }

  /** An escaped string value up to the end of its line. */
  lemma ReadStringValue(x: string, next: string)
    ensures ParseString(" \"" + (Escape(x) + ("\",\n" + next))) == Got(x, ",\n" + next)
  {
    assert " \"" + (Escape(x) + ("\",\n" + next)) == " " + ("\"" + (Escape(x) + ("\"" + (",\n" + next))));
    ReadEscaped(" ", x, ",\n" + next);
  }

  lemma ReadNumberValue(n: nat, next: string)
    requires n < TWO_64
    ensures ParseUint(" " + (Decimal(n) + (",\n" + next))) == Got(n, ",\n" + next)
  {
    ReadDecimal(" ", n, ",\n" + next);
  }

  /** From the end of a value to the next line. */
  lemma NextLine(rest: string)
    ensures Peek(",\n" + rest) == Got(',', ",\n" + rest) && (",\n" + rest)[1..] == "\n" + rest
  {
    assert ",\n" + rest == "" + ("," + ("\n" + rest));
    SkipTo("", ',', "\n" + rest);
  }

  // ----- Chunk lists -----

  lemma {:induction false} StringsBack(chunks: seq<Hash>, ws: string, tail: string, acc: seq<string>)
    requires chunks != [] && AllSpace(ws) && forall h :: h in chunks ==> Plain(h)
    ensures Strings(ws + ("\"" + (chunks[0] + ("\"" + ChunksText(chunks[1..], false, "]" + tail)))), acc)
            == Got(acc + chunks, tail)
    decreases |chunks|
  {
    var more := chunks[1..];
    var rest := ChunksText(more, false, "]" + tail);
    ReadPlain(ws, chunks[0], rest);
    assert chunks == [chunks[0]] + more;
    if more == [] {
      SkipTo("", ']', tail);
      assert rest == "" + ("]" + tail);
      assert acc + [chunks[0]] == acc + chunks;
    } else {
      var next := "\"" + (more[0] + ("\"" + ChunksText(more[1..], false, "]" + tail)));
      assert rest == ", " + next == "" + ("," + (" " + next));
      SkipTo("", ',', " " + next);
      StringsBack(more, " ", tail, acc + [chunks[0]]);
      assert acc + [chunks[0]] + more == acc + chunks;
    }
  }

  lemma ChunksBack(chunks: seq<Hash>, tail: string)
    requires forall h :: h in chunks ==> Plain(h)
    ensures ParseStrings(" [" + ChunksText(chunks, true, "]" + tail)) == Got(chunks, tail)
  {
    hide Plain, Strings, SkipSpace;
    var body := ChunksText(chunks, true, "]" + tail);
    assert " [" + body == " " + ("[" + body);
    SkipTo(" ", '[', body);
    if chunks == [] {
      assert body == "" + ("]" + tail);
      SkipTo("", ']', tail);
    } else {
      var inner := chunks[0] + ("\"" + ChunksText(chunks[1..], false, "]" + tail));
      assert body == "" + ("\"" + inner);
      SkipTo("", '"', inner);
      StringsBack(chunks, "", tail, []);
      assert "" + ("\"" + inner) == "\"" + inner;
      assert [] + chunks == chunks;
    }
  }

  // ----- File entries -----

  /** A file entry the printer can write and the parser can read: 64-bit size, plain chunk hashes. */
  predicate Storable(f: FileEntry) {
    f.size < TWO_64 && forall h :: h in f.chunks ==> Plain(h)
  }

  lemma FileLabels()
    ensures "      \"path\": \"" == Label("      ", "path", " \"")
    ensures "      \"size\": " == Label("      ", "size", " ")
    ensures "      \"chunks\": [" == Label("      ", "chunks", " [")
    ensures AllSpace("      ") && Plain("path") && Plain("size") && Plain("chunks")
  {
  }

  /** One key of a file object that is not the last. */
  lemma FileFieldsStep(t: string, fe: FileEntry, key: string, value: string, fe': FileEntry, next: string)
    requires ParseString(t) == Got(key, ":" + value) && Expect(":" + value, ':') == Got((), value)
    requires FileField(key, value, fe) == Got(fe', ",\n" + next)
    ensures FileFields(t, fe) == FileFields("\n" + next, fe')
  {
    NextLine(next);
  }

  lemma FileFieldsLast(t: string, fe: FileEntry, key: string, value: string, fe': FileEntry, ws: string, tail: string)
    requires ParseString(t) == Got(key, ":" + value) && Expect(":" + value, ':') == Got((), value)
    requires AllSpace(ws) && FileField(key, value, fe) == Got(fe', ws + ("}" + tail))
    ensures FileFields(t, fe) == Got(fe', tail)
  {
    SkipTo(ws, '}', tail);
    assert ("}" + tail)[1..] == tail;
  }

  lemma FileFieldIs(value: string, fe: FileEntry)
    ensures ParseString(value).Got? ==>
      FileField("path", value, fe) == Got(fe.(path := ParseString(value).value), ParseString(value).rest)
    ensures ParseUint(value).Got? ==>
      FileField("size", value, fe) == Got(fe.(size := ParseUint(value).value), ParseUint(value).rest)
    ensures ParseStrings(value).Got? ==>
      FileField("chunks", value, fe) == Got(fe.(chunks := ParseStrings(value).value), ParseStrings(value).rest)
  {
  }

  lemma PathField(x: string, next: string, fe: FileEntry)
    ensures FileFields("\n" + ("      \"path\": \"" + (Escape(x) + ("\",\n" + next))), fe)
            == FileFields("\n" + next, fe.(path := x))
  {
    hide *;
    var rest := Escape(x) + ("\",\n" + next);
    FileLabels();
    ReadLabel("      ", "path", " \"", rest);
    ReadStringValue(x, next);
    FileFieldIs(" \"" + rest, fe);
    FileFieldsStep("\n" + ("      \"path\": \"" + rest), fe, "path", " \"" + rest, fe.(path := x), next);
  }

  lemma SizeField(n: nat, next: string, fe: FileEntry)
    requires n < TWO_64
    ensures FileFields("\n" + ("      \"size\": " + (Decimal(n) + (",\n" + next))), fe)
            == FileFields("\n" + next, fe.(size := n))
  {
    hide *;
    var rest := Decimal(n) + (",\n" + next);
    FileLabels();
    ReadLabel("      ", "size", " ", rest);
    ReadNumberValue(n, next);
    FileFieldIs(" " + rest, fe);
    FileFieldsStep("\n" + ("      \"size\": " + rest), fe, "size", " " + rest, fe.(size := n), next);
  }

  lemma FileClose(tail: string)
    ensures "]\n" + ("    }" + tail) == "]" + ("\n    " + ("}" + tail)) && AllSpace("\n    ")
  {
  }

  lemma ChunksField(chunks: seq<Hash>, tail: string, fe: FileEntry)
    requires forall h :: h in chunks ==> Plain(h)
    ensures FileFields("\n" + ("      \"chunks\": [" + ChunksText(chunks, true, "]\n" + ("    }" + tail))), fe)
            == Got(fe.(chunks := chunks), tail)
  {
    hide *;
    FileClose(tail);
    var rest := ChunksText(chunks, true, "]\n" + ("    }" + tail));
    FileLabels();
    ReadLabel("      ", "chunks", " [", rest);
    ChunksBack(chunks, "\n    " + ("}" + tail));
    FileFieldIs(" [" + rest, fe);
    FileFieldsLast("\n" + ("      \"chunks\": [" + rest), fe, "chunks", " [" + rest,
                   fe.(chunks := chunks), "\n    ", tail);
  }

  /** The text of a file object after its opening brace. */
  function FileBody(f: FileEntry, tail: string): string {
    "\n" + ("      \"path\": \"" + (Escape(f.path) + ("\",\n" + ("      \"size\": " + (Decimal(f.size) + (",\n"
    + ("      \"chunks\": [" + ChunksText(f.chunks, true, "]\n" + ("    }" + tail)))))))))
  }

  lemma FileBrace(f: FileEntry, tail: string)
    ensures FileText(f, tail) == "    " + ("{" + FileBody(f, tail)) && AllSpace("    ")
  {
    hide Escape, Decimal, ChunksText;
  }

  lemma BodyIs(f: FileEntry, tail: string)
    ensures FileBody(f, tail) == "\n" + ("      \"path\": \"" + (Escape(f.path) + ("\",\n" + ("      \"size\": " +
      (Decimal(f.size) + (",\n" + ("      \"chunks\": [" + ChunksText(f.chunks, true, "]\n" + ("    }" + tail)))))))))
  {
  }

  lemma StorableIs(f: FileEntry)
    requires Storable(f)
    ensures f.size < TWO_64 && forall h :: h in f.chunks ==> Plain(h)
  {
  }

  lemma FileBack(f: FileEntry, tail: string)
    requires Storable(f)
    ensures FileFields(FileBody(f, tail), FileEntry("", 0, [])) == Got(f, tail)
  {
    hide *;
    var e0 := FileEntry("", 0, []);
    var t2 := "      \"chunks\": [" + ChunksText(f.chunks, true, "]\n" + ("    }" + tail));
    var t1 := "      \"size\": " + (Decimal(f.size) + (",\n" + t2));
    BodyIs(f, tail);
    StorableIs(f);
    PathField(f.path, t1, e0);
    SizeField(f.size, t2, e0.(path := f.path));
    ChunksField(f.chunks, tail, e0.(path := f.path, size := f.size));
  }

  /** One file object, then the rest of the list. */
  lemma FilesStep(f: FileEntry, rest: string, ws: string, acc: seq<FileEntry>)
    requires Storable(f) && AllSpace(ws)
    ensures forall c, r :: Peek(rest) == Got(c, r) && r != "" ==>
      Files(ws + FileText(f, rest), acc) ==
        if c == ',' then Files(r[1..], acc + [f]) else if c == ']' then Got(acc + [f], r[1..]) else Fail
  {
    hide FileText, FileBody, FileFields, SkipSpace;
    var body := FileBody(f, rest);
    FileBrace(f, rest);
    FileBack(f, rest);
    assert ws + ("    " + ("{" + body)) == (ws + "    ") + ("{" + body);
    SkipTo(ws + "    ", '{', body);
  }

  lemma {:induction false} FilesBack(files: seq<FileEntry>, ws: string, tail: string, acc: seq<FileEntry>)
    requires files != [] && AllSpace(ws) && forall f :: f in files ==> Storable(f)
    ensures Files(ws + FileText(files[0], FilesText(files[1..], false, "]" + tail)), acc) == Got(acc + files, tail)
    decreases |files|
  {
    hide *;
    var more := files[1..];
    var rest := FilesText(more, false, "]" + tail);
    FilesStep(files[0], rest, ws, acc);
    assert files == [files[0]] + more;
    FilesTextIs(more, "]" + tail);
    if more == [] {
      CloseList("\n  ", tail);
      assert acc + [files[0]] == acc + files;
    } else {
      var next := FileText(more[0], FilesText(more[1..], false, "]" + tail));
      NextLine(next);
      NewlineIsSpace();
      FilesBack(more, "\n", tail, acc + [files[0]]);
      assert acc + [files[0]] + more == acc + files;
    }
  }

  lemma NewlineIsSpace()
    ensures AllSpace("\n") && AllSpace("") && AllSpace("\n  ") && AllSpace(" ")
  {
  }

  lemma CloseList(ws: string, tail: string)
    requires AllSpace(ws)
    ensures Peek(ws + ("]" + tail)) == Got(']', "]" + tail) && ("]" + tail)[1..] == tail
  {
    SkipTo(ws, ']', tail);
  }

  lemma FilesTextIs(files: seq<FileEntry>, tail: string)
    ensures files == [] ==> FilesText(files, false, tail) == "\n  " + tail && FilesText(files, true, tail) == tail
    ensures files != [] ==>
      && FilesText(files, false, tail) == ",\n" + FileText(files[0], FilesText(files[1..], false, tail))
      && FilesText(files, true, tail) == "\n" + FileText(files[0], FilesText(files[1..], false, tail))
    ensures AllSpace("\n  ")
  {
  }

  lemma ParseFilesBack(files: seq<FileEntry>, tail: string)
    requires forall f :: f in files ==> Storable(f)
    ensures ParseFiles(" [" + FilesText(files, true, "]" + tail), []) == Got(files, tail)
  {
    hide *;
    var body := FilesText(files, true, "]" + tail);
    FilesTextIs(files, "]" + tail);
    NewlineIsSpace();
    OpenList(body);
    if files == [] {
      CloseList("", tail);
      assert "" + ("]" + tail) == "]" + tail;
      EmptyFiles(body, tail);
    } else {
      var rest := FilesText(files[1..], false, "]" + tail);
      var text := FileText(files[0], rest);
      FileBrace(files[0], rest);
      var inner := FileBody(files[0], rest);
      FirstBrace(text, inner);
      FilesBack(files, "", tail, []);
      assert "" + text == text;
      SameAfterSpace(text, inner, []);
      SomeFiles(body, "{" + inner);
      assert [] + files == files;
    }
  }

  lemma OpenList(body: string)
    ensures Expect(" [" + body, '[') == Got((), body)
  {
    assert " [" + body == " " + ("[" + body);
    SkipTo(" ", '[', body);
  }

  lemma EmptyFiles(body: string, tail: string)
    requires Expect(" [" + body, '[') == Got((), body) && Peek(body) == Got(']', "]" + tail)
    ensures ParseFiles(" [" + body, []) == Got([], tail)
  {
    assert ("]" + tail)[1..] == tail;
  }

  lemma SomeFiles(body: string, r: string)
    requires Expect(" [" + body, '[') == Got((), body) && Peek(body) == Got('{', r)
    ensures ParseFiles(" [" + body, []) == Files(r, [])
  {
  }

  lemma FirstBrace(text: string, inner: string)
    requires text == "    " + ("{" + inner)
    ensures Peek("\n" + text) == Got('{', "{" + inner)
  {
    assert "\n" + text == "\n    " + ("{" + inner);
    SkipTo("\n    ", '{', inner);
  }

  /** Skipping the white space before the first file object changes nothing. */
  lemma SameAfterSpace(text: string, inner: string, acc: seq<FileEntry>)
    requires text == "    " + ("{" + inner)
    ensures Files("{" + inner, acc) == Files(text, acc)
  {
    hide FileFields, SkipSpace;
    SkipTo("    ", '{', inner);
    SkipTo("", '{', inner);
    assert "" + ("{" + inner) == "{" + inner;
  }

  // ----- Whole manifests -----

  /** Any name and paths; unsigned fields of 32 and 64 bits; chunk hashes without quote or backslash. */
  predicate StorableManifest(m: Manifest) {
    m.chunkSize < TWO_32 && m.seqNo < TWO_64 && forall f :: f in m.files ==> Storable(f)
  }

  lemma ManifestLabels()
    ensures "  \"name\": \"" == Label("  ", "name", " \"")
    ensures "  \"chunk_size\": " == Label("  ", "chunk_size", " ")
    ensures "  \"seq\": " == Label("  ", "seq", " ")
    ensures "  \"files\": [" == Label("  ", "files", " [")
    ensures AllSpace("  ") && Plain("name") && Plain("chunk_size") && Plain("seq") && Plain("files")
  {
  }

  lemma FieldsStep(t: string, m: Manifest, key: string, value: string, m': Manifest, next: string)
    requires ParseString(t) == Got(key, ":" + value) && Expect(":" + value, ':') == Got((), value)
    requires Field(key, value, m) == Got(m', ",\n" + next)
    ensures Fields(t, m) == Fields("\n" + next, m')
  {
    NextLine(next);
  }

  lemma FieldsLast(t: string, m: Manifest, key: string, value: string, m': Manifest, end: string)
    requires ParseString(t) == Got(key, ":" + value) && Expect(":" + value, ':') == Got((), value)
    requires Field(key, value, m) == Got(m', "\n" + ("}" + end))
    ensures Fields(t, m) == Got(m', end)
  {
    SkipTo("\n", '}', end);
    assert ("}" + end)[1..] == end;
  }

  lemma FieldIs(value: string, m: Manifest)
    ensures ParseString(value).Got? ==>
      Field("name", value, m) == Got(m.(name := ParseString(value).value), ParseString(value).rest)
    ensures ParseUint(value).Got? ==>
      && Field("chunk_size", value, m) == Got(m.(chunkSize := Cut32(ParseUint(value).value)), ParseUint(value).rest)
      && Field("seq", value, m) == Got(m.(seqNo := ParseUint(value).value), ParseUint(value).rest)
    ensures ParseFiles(value, m.files).Got? ==>
      Field("files", value, m) == Got(m.(files := ParseFiles(value, m.files).value), ParseFiles(value, m.files).rest)
  {
  }

  lemma NameField(x: string, next: string, m: Manifest)
    ensures Fields("\n" + ("  \"name\": \"" + (Escape(x) + ("\",\n" + next))), m)
            == Fields("\n" + next, m.(name := x))
  {
    hide *;
    var rest := Escape(x) + ("\",\n" + next);
    ManifestLabels();
    ReadLabel("  ", "name", " \"", rest);
    ReadStringValue(x, next);
    FieldIs(" \"" + rest, m);
    FieldsStep("\n" + ("  \"name\": \"" + rest), m, "name", " \"" + rest, m.(name := x), next);
  }

  lemma Cut32Small(n: nat)
    requires n < TWO_32
    ensures Cut32(n) == n && n < TWO_64
  {
  }

  lemma ChunkSizeField(n: nat, next: string, m: Manifest)
    requires n < TWO_32
    ensures Fields("\n" + ("  \"chunk_size\": " + (Decimal(n) + (",\n" + next))), m)
            == Fields("\n" + next, m.(chunkSize := n))
  {
    hide *;
    var rest := Decimal(n) + (",\n" + next);
    Cut32Small(n);
    ManifestLabels();
    ReadLabel("  ", "chunk_size", " ", rest);
    ReadNumberValue(n, next);
    FieldIs(" " + rest, m);
    FieldsStep("\n" + ("  \"chunk_size\": " + rest), m, "chunk_size", " " + rest, m.(chunkSize := n), next);
  }

  lemma SeqField(n: nat, next: string, m: Manifest)
    requires n < TWO_64
    ensures Fields("\n" + ("  \"seq\": " + (Decimal(n) + (",\n" + next))), m)
            == Fields("\n" + next, m.(seqNo := n))
  {
    hide *;
    var rest := Decimal(n) + (",\n" + next);
    ManifestLabels();
    ReadLabel("  ", "seq", " ", rest);
    ReadNumberValue(n, next);
    FieldIs(" " + rest, m);
    FieldsStep("\n" + ("  \"seq\": " + rest), m, "seq", " " + rest, m.(seqNo := n), next);
  }

  lemma ManifestClose(end: string)
    ensures "]\n" + ("}" + end) == "]" + ("\n" + ("}" + end))
  {
  }

  lemma FilesField(files: seq<FileEntry>, m: Manifest, end: string)
    requires (forall f :: f in files ==> Storable(f)) && m.files == []
    ensures Fields("\n" + ("  \"files\": [" + FilesText(files, true, "]\n" + ("}" + end))), m)
            == Got(m.(files := files), end)
  {
    hide *;
    ManifestClose(end);
    var rest := FilesText(files, true, "]\n" + ("}" + end));
    ManifestLabels();
    ReadLabel("  ", "files", " [", rest);
    ParseFilesBack(files, "\n" + ("}" + end));
    FieldIs(" [" + rest, m);
    FieldsLast("\n" + ("  \"files\": [" + rest), m, "files", " [" + rest, m.(files := files), end);
  }

  /** The text of a manifest after its opening brace, with `end` after its closing one. */
  function ManifestBody(m: Manifest, end: string): string {
    "\n" + ("  \"name\": \"" + (Escape(m.name) + ("\",\n" + ("  \"chunk_size\": " + (Decimal(m.chunkSize) + (",\n"
    + ("  \"seq\": " + (Decimal(m.seqNo) + (",\n" + ("  \"files\": [" +
        FilesText(m.files, true, "]\n" + ("}" + end))))))))))))
  }

  lemma ManifestBrace(m: Manifest)
    ensures ToJson(m) == "{" + ManifestBody(m, "\n")
  {
    hide Escape, Decimal, FilesText;
    assert "}" + "\n" == "}\n";
  }

  lemma OpenBrace(body: string)
    ensures Expect("{" + body, '{') == Got((), body)
  {
    assert "{" + body == "" + ("{" + body);
    SkipTo("", '{', body);
  }

  lemma BodyParses(m: Manifest, end: string)
    requires StorableManifest(m)
    ensures Fields(ManifestBody(m, end), EMPTY_MANIFEST) == Got(m, end)
  {
    hide Fields, Escape, Decimal, FilesText;
    var t3 := "  \"files\": [" + FilesText(m.files, true, "]\n" + ("}" + end));
    var t2 := "  \"seq\": " + (Decimal(m.seqNo) + (",\n" + t3));
    var t1 := "  \"chunk_size\": " + (Decimal(m.chunkSize) + (",\n" + t2));
    var m1 := EMPTY_MANIFEST.(name := m.name);
    var m2 := m1.(chunkSize := m.chunkSize);
    var m3 := m2.(seqNo := m.seqNo);
    NameField(m.name, t1, EMPTY_MANIFEST);
    ChunkSizeField(m.chunkSize, t2, m1);
    SeqField(m.seqNo, t3, m2);
    FilesField(m.files, m3, end);
  }

  /** Parsing a printed manifest gives the manifest back, whatever its name and paths contain. */
  lemma RoundTrip(m: Manifest)
    requires StorableManifest(m)
    ensures FromJson(ToJson(m)) == Some(m)
  {
    ManifestBrace(m);
    OpenBrace(ManifestBody(m, "\n"));
    BodyParses(m, "\n");
  }

  /** Different manifests are printed differently. */
  lemma PrintingInjective(a: Manifest, b: Manifest)
    requires StorableManifest(a) && StorableManifest(b) && ToJson(a) == ToJson(b)
    ensures a == b
  {
    RoundTrip(a);
    RoundTrip(b);
  }
}
