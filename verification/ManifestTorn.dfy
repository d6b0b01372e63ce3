/** A manifest whose write was cut short is never mistaken for a manifest. */
module ManifestTorn {
  import opened Common
  import opened Manifests
  import opened ManifestText
  import opened ManifestRoundTrip

  // Each lemma: once a parser has succeeded, text appended to its input only lengthens what it leaves.

  lemma {:induction false} SpaceExtends(t: string, x: string)
    requires SkipSpace(t) != ""
    ensures SkipSpace(t + x) == SkipSpace(t) + x
    decreases |t|
  {
    assert (t + x)[0] == t[0] && (t + x)[1..] == t[1..] + x;
    if IsSpace(t[0]) { SpaceExtends(t[1..], x); }
  }

  lemma ExpectExtends(t: string, c: char, x: string)
    requires Expect(t, c).Got?
    ensures Expect(t + x, c) == Got((), Expect(t, c).rest + x)
  {
    SpaceExtends(t, x);
    var r := SkipSpace(t);
    assert (r + x)[1..] == r[1..] + x;
  }

  lemma PeekExtends(t: string, x: string)
    requires Peek(t).Got?
    ensures Peek(t + x) == Got(Peek(t).value, Peek(t).rest + x)
    ensures (Peek(t).rest + x)[1..] == Peek(t).rest[1..] + x
  {
    SpaceExtends(t, x);
  }

  lemma {:induction false} BodyExtends(t: string, acc: string, x: string)
    requires StringBody(t, acc).Got?
    ensures StringBody(t + x, acc) == Got(StringBody(t, acc).value, StringBody(t, acc).rest + x)
    decreases |t|
  {
    assert (t + x)[0] == t[0] && (t + x)[1..] == t[1..] + x;
    if t[0] == '\\' {
      assert (t + x)[1] == t[1] && (t + x)[2..] == t[2..] + x;
      BodyExtends(t[2..], acc + [Unescape(t[1])], x);
    } else if t[0] != '"' {
      BodyExtends(t[1..], acc + [t[0]], x);
    }
  }

  lemma StringExtends(t: string, x: string)
    requires ParseString(t).Got?
    ensures ParseString(t + x) == Got(ParseString(t).value, ParseString(t).rest + x)
  {
    ExpectExtends(t, '"', x);
    BodyExtends(Expect(t, '"').rest, "", x);
  }

  lemma {:induction false} DigitsExtend(t: string, v: nat, any: bool, x: string)
    requires Digits(t, v, any).Got? && Digits(t, v, any).rest != ""
    ensures Digits(t + x, v, any) == Got(Digits(t, v, any).value, Digits(t, v, any).rest + x)
    decreases |t|
  {
    assert t != "";
    assert (t + x)[0] == t[0] && (t + x)[1..] == t[1..] + x;
    if IsDigit(t[0]) { DigitsExtend(t[1..], Wrap64(v * 10 + DigitValue(t[0])), true, x); }
  }

  lemma UintExtends(t: string, x: string)
    requires ParseUint(t).Got? && ParseUint(t).rest != ""
    ensures ParseUint(t + x) == Got(ParseUint(t).value, ParseUint(t).rest + x)
  {
    SpaceExtends(t, x);
    DigitsExtend(SkipSpace(t), 0, false, x);
  }

  lemma {:induction false} StringsExtend(t: string, acc: seq<string>, x: string)
    requires Strings(t, acc).Got?
    ensures Strings(t + x, acc) == Got(Strings(t, acc).value, Strings(t, acc).rest + x)
    decreases |t|
  {
    StringExtends(t, x);
    var s := ParseString(t);
    PeekExtends(s.rest, x);
    var p := Peek(s.rest);
    if p.value == ',' { StringsExtend(p.rest[1..], acc + [s.value], x); }
  }

  lemma StringListExtends(t: string, x: string)
    requires ParseStrings(t).Got?
    ensures ParseStrings(t + x) == Got(ParseStrings(t).value, ParseStrings(t).rest + x)
  {
    ExpectExtends(t, '[', x);
    PeekExtends(Expect(t, '[').rest, x);
    var p := Peek(Expect(t, '[').rest);
    if p.value != ']' { StringsExtend(p.rest, [], x); }
  }

  lemma FileFieldExtends(key: string, t: string, fe: FileEntry, x: string)
    requires FileField(key, t, fe).Got? && FileField(key, t, fe).rest != ""
    ensures FileField(key, t + x, fe) == Got(FileField(key, t, fe).value, FileField(key, t, fe).rest + x)
  {
    if key == "path" {
      StringExtends(t, x);
    } else if key == "size" {
      UintExtends(t, x);
    } else {
      StringListExtends(t, x);
    }
  }

  lemma {:induction false} FileFieldsExtend(t: string, fe: FileEntry, x: string)
    requires FileFields(t, fe).Got?
    ensures FileFields(t + x, fe) == Got(FileFields(t, fe).value, FileFields(t, fe).rest + x)
    decreases |t|
  {
    StringExtends(t, x);
    var s := ParseString(t);
    ExpectExtends(s.rest, ':', x);
    var r1 := Expect(s.rest, ':').rest;
    var f := FileField(s.value, r1, fe);
    FileFieldExtends(s.value, r1, fe, x);
    PeekExtends(f.rest, x);
    var p := Peek(f.rest);
    if p.value == ',' { FileFieldsExtend(p.rest[1..], f.value, x); }
  }

  lemma {:induction false} FilesExtend(t: string, acc: seq<FileEntry>, x: string)
    requires Files(t, acc).Got?
    ensures Files(t + x, acc) == Got(Files(t, acc).value, Files(t, acc).rest + x)
    decreases |t|
  {
    ExpectExtends(t, '{', x);
    var r0 := Expect(t, '{').rest;
    FileFieldsExtend(r0, FileEntry("", 0, []), x);
    var f := FileFields(r0, FileEntry("", 0, []));
    PeekExtends(f.rest, x);
    var p := Peek(f.rest);
    if p.value == ',' { FilesExtend(p.rest[1..], acc + [f.value], x); }
  }

  lemma FileListExtends(t: string, acc: seq<FileEntry>, x: string)
    requires ParseFiles(t, acc).Got?
    ensures ParseFiles(t + x, acc) == Got(ParseFiles(t, acc).value, ParseFiles(t, acc).rest + x)
  {
    ExpectExtends(t, '[', x);
    PeekExtends(Expect(t, '[').rest, x);
    var p := Peek(Expect(t, '[').rest);
    if p.value != ']' { FilesExtend(p.rest, acc, x); }
  }

  lemma FieldExtends(key: string, t: string, m: Manifest, x: string)
    requires Field(key, t, m).Got? && Field(key, t, m).rest != ""
    ensures Field(key, t + x, m) == Got(Field(key, t, m).value, Field(key, t, m).rest + x)
  {
    if key == "name" {
      StringExtends(t, x);
    } else if key == "chunk_size" || key == "seq" {
      UintExtends(t, x);
    } else {
      FileListExtends(t, m.files, x);
    }
  }

  lemma {:induction false} FieldsExtend(t: string, m: Manifest, x: string)
    requires Fields(t, m).Got?
    ensures Fields(t + x, m) == Got(Fields(t, m).value, Fields(t, m).rest + x)
    decreases |t|
  {
    StringExtends(t, x);
    var s := ParseString(t);
    ExpectExtends(s.rest, ':', x);
    var r1 := Expect(s.rest, ':').rest;
    var f := Field(s.value, r1, m);
    FieldExtends(s.value, r1, m, x);
    PeekExtends(f.rest, x);
    var p := Peek(f.rest);
    if p.value == ',' { FieldsExtend(p.rest[1..], f.value, x); }
  }

  /**
   * Of the prefixes of a printed manifest the parser accepts exactly those that reach the closing brace, and it
   * reads them as the whole manifest: a write cut short is rejected, never misread.
   */
  lemma TornWriteRejected(m: Manifest, k: nat)
    requires StorableManifest(m) && k <= |ToJson(m)|
    ensures FromJson(ToJson(m)[..k]).Some? <==> k >= |ToJson(m)| - 1
    ensures FromJson(ToJson(m)[..k]).Some? ==> FromJson(ToJson(m)[..k]) == Some(m)
  {
    var t := ToJson(m)[..k];
    var x := ToJson(m)[k..];
    assert t + x == ToJson(m);
    if FromJson(t).Some? {
      AcceptedPrefix(m, t, x);
    }
    if k >= |ToJson(m)| - 1 {
      LastBrace(m, k);
    }
  }

  lemma AcceptedPrefix(m: Manifest, t: string, x: string)
    requires StorableManifest(m) && t + x == ToJson(m) && FromJson(t).Some?
    ensures |x| <= 1 && FromJson(t) == Some(m)
  {
    ManifestBrace(m);
    OpenBrace(ManifestBody(m, "\n"));
    BodyParses(m, "\n");
    ExpectExtends(t, '{', x);
    var r := Expect(t, '{').rest;
    FieldsExtend(r, EMPTY_MANIFEST, x);
  }

  /** Text after the closing brace is a suffix of the printed form. */
  lemma {:induction false} ChunksTextTail(chunks: seq<Hash>, first: bool, tail: string, x: string)
    ensures ChunksText(chunks, first, tail) + x == ChunksText(chunks, first, tail + x)
    decreases |chunks|
  {
    if chunks != [] {
      var lead := if first then "" else ", ";
      var rest := ChunksText(chunks[1..], false, tail);
      ChunksTextTail(chunks[1..], false, tail, x);
      assert (lead + ("\"" + (chunks[0] + ("\"" + rest)))) + x == lead + ("\"" + (chunks[0] + ("\"" + (rest + x))));
    }
  }

  lemma FileTextTail(f: FileEntry, tail: string, x: string)
    ensures FileText(f, tail) + x == FileText(f, tail + x)
  {
    var close, close' := "]\n" + ("    }" + tail), "]\n" + ("    }" + (tail + x));
    assert close + x == close';
    ChunksTextTail(f.chunks, true, close, x);
    var rest := ChunksText(f.chunks, true, close);
    FileTextIs(f, tail);
    FileTextIs(f, tail + x);
    var lead := FileLead(f);
    assert (lead + rest) + x == lead + (rest + x);
  }

  /** A file object up to its chunk list. */
  function FileLead(f: FileEntry): string {
    "    {\n" + "      \"path\": \"" + Escape(f.path) + "\",\n" + "      \"size\": " + Decimal(f.size) + ",\n"
    + "      \"chunks\": ["
  }

  lemma FileTextIs(f: FileEntry, tail: string)
    ensures FileText(f, tail) == FileLead(f) + ChunksText(f.chunks, true, "]\n" + ("    }" + tail))
  {
    var c := ChunksText(f.chunks, true, "]\n" + ("    }" + tail));
    Regroup("    {\n", "      \"path\": \"", Escape(f.path), "\",\n", "      \"size\": ", Decimal(f.size), ",\n",
            "      \"chunks\": [", c);
  }

  lemma Regroup(a: string, b: string, c: string, d: string, e: string, f: string, g: string, h: string, z: string)
    ensures a + (b + (c + (d + (e + (f + (g + (h + z))))))) == a + b + c + d + e + f + g + h + z
  {
  }

  lemma {:induction false} FilesTextTail(files: seq<FileEntry>, first: bool, tail: string, x: string)
    ensures FilesText(files, first, tail) + x == FilesText(files, first, tail + x)
    decreases |files|
  {
    if files == [] {
      var lead := if first then "" else "\n  ";
      assert (lead + tail) + x == lead + (tail + x);
    } else {
      var lead := if first then "\n" else ",\n";
      var rest := FilesText(files[1..], false, tail);
      FilesTextTail(files[1..], false, tail, x);
      FileTextTail(files[0], rest, x);
      assert (lead + FileText(files[0], rest)) + x == lead + (FileText(files[0], rest) + x);
    }
  }

  /** A manifest up to its file list. */
  function ManifestLead(m: Manifest): string {
    "{" + "\n" + "  \"name\": \"" + Escape(m.name) + "\",\n" + "  \"chunk_size\": " + Decimal(m.chunkSize) + ",\n"
    + "  \"seq\": " + Decimal(m.seqNo) + ",\n" + "  \"files\": ["
  }

  lemma BodyText(m: Manifest, end: string)
    ensures "{" + ManifestBody(m, end) == ManifestLead(m) + FilesText(m.files, true, "]\n" + ("}" + end))
  {
    var z := FilesText(m.files, true, "]\n" + ("}" + end));
    RegroupMore("{", "\n", "  \"name\": \"", Escape(m.name), "\",\n", "  \"chunk_size\": ", Decimal(m.chunkSize), ",\n",
                "  \"seq\": ", Decimal(m.seqNo), ",\n", "  \"files\": [", z);
  }

  lemma RegroupMore(a: string, b: string, c: string, d: string, e: string, f: string, g: string, h: string,
                    i: string, j: string, k: string, l: string, z: string)
    ensures a + (b + (c + (d + (e + (f + (g + (h + (i + (j + (k + (l + z)))))))))))
            == a + b + c + d + e + f + g + h + i + j + k + l + z
  {
    Regroup(e, f, g, h, i, j, k, l, z);
    var y := i + (j + (k + (l + z)));
    Regroup(a, b, c, d, e, f, g, h, y);
    Regroup(a + b + c + d + e, f, g, h, i, j, k, l, z);
  }

  lemma UnendedText(m: Manifest)
    ensures ToJson(m) == ("{" + ManifestBody(m, "")) + "\n"
  {
    var files := FilesText(m.files, true, "]\n" + ("}" + ""));
    FilesTextTail(m.files, true, "]\n" + ("}" + ""), "\n");
    assert ("]\n" + ("}" + "")) + "\n" == "]\n" + ("}" + "\n");
    ManifestBrace(m);
    BodyText(m, "");
    BodyText(m, "\n");
    assert (ManifestLead(m) + files) + "\n" == ManifestLead(m) + (files + "\n");
  }

  /** Without the final newline the text still parses. */
  lemma LastBrace(m: Manifest, k: nat)
    requires StorableManifest(m) && |ToJson(m)| - 1 <= k <= |ToJson(m)|
    ensures FromJson(ToJson(m)[..k]) == Some(m)
  {
    if k == |ToJson(m)| {
      RoundTrip(m);
      assert ToJson(m)[..k] == ToJson(m);
    } else {
      UnendedText(m);
      assert ToJson(m)[..k] == "{" + ManifestBody(m, "");
      OpenBrace(ManifestBody(m, ""));
      BodyParses(m, "");
    }
  }
}
