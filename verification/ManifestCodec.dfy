/** The printing loops, and the parser with its cursor. */
module ManifestCodec {
  import opened Common
  import opened Manifests
  import opened ManifestText

  // ----- Printer -----

  method JsonEscape(s: string) returns (out: string)
    ensures out == Escape(s)
  {
    hide Escape;
    out := "";
    assert s[0..] == s;
    for k := 0 to |s|
      invariant out + Escape(s[k..]) == Escape(s)
    {
      EscapeStep(s, k);
      Append(out, EscapeChar(s[k]), Escape(s[k + 1..]), Escape(s));
      match s[k] {
        case '"' => out := out + "\\\"";
        case '\\' => out := out + "\\\\";
        case '\n' => out := out + "\\n";
        case '\r' => out := out + "\\r";
        case '\t' => out := out + "\\t";
        case _ => out := out + [s[k]];
      }
    }
    EscapeEnd(s);
  }

  lemma EscapeStep(s: string, k: nat)
    requires k < |s|
    ensures Escape(s[k..]) == EscapeChar(s[k]) + Escape(s[k + 1..])
  {
    assert s[k..][0] == s[k] && s[k..][1..] == s[k + 1..];
  }

  lemma EscapeEnd(s: string)
    ensures Escape(s[|s|..]) == ""
  {
    assert s[|s|..] == "";
  }

  lemma Append(os: string, a: string, rest: string, whole: string)
    requires os + (a + rest) == whole
    ensures (os + a) + rest == whole
  {
    assert (os + a) + rest == os + (a + rest);
  }

  lemma ChunksTextStep(chunks: seq<Hash>, c: nat, tail: string)
    requires c < |chunks|
    ensures ChunksText(chunks[c..], c == 0, tail)
            == (if c == 0 then "" else ", ") + ("\"" + (chunks[c] + ("\"" + ChunksText(chunks[c + 1..], false, tail))))
  {
    assert chunks[c..][0] == chunks[c] && chunks[c..][1..] == chunks[c + 1..];
  }

  lemma ChunksTextEnd(chunks: seq<Hash>, tail: string)
    ensures ChunksText(chunks[0..], true, tail) == ChunksText(chunks, true, tail)
    ensures ChunksText(chunks[|chunks|..], |chunks| == 0, tail) == tail
  {
    assert chunks[0..] == chunks;
  }

  /** Prints the quoted chunk hashes; `whole` is the text being printed and `tail` what is to follow. */
  method PrintChunks(chunks: seq<Hash>, os0: string, ghost tail: string, ghost whole: string) returns (os: string)
    requires os0 + ChunksText(chunks, true, tail) == whole
    ensures os + tail == whole
  {
    hide *;
    os := os0;
    ChunksTextEnd(chunks, tail);
    for c := 0 to |chunks|
      invariant os + ChunksText(chunks[c..], c == 0, tail) == whole
    {
      ChunksTextStep(chunks, c, tail);
      ghost var rest := ChunksText(chunks[c + 1..], false, tail);
      ghost var r1 := chunks[c] + ("\"" + rest);
      var sep := if c == 0 then "" else ", ";
      Append(os, sep, "\"" + r1, whole);
      os := os + sep;
      Append(os, "\"", r1, whole);
      os := os + "\"";
      Append(os, chunks[c], "\"" + rest, whole);
      os := os + chunks[c];
      Append(os, "\"", rest, whole);
      os := os + "\"";
    }
  }

  lemma FilesTextStep(files: seq<FileEntry>, f: nat, tail: string)
    requires f < |files|
    ensures FilesText(files[f..], f == 0, tail)
            == (if f == 0 then "\n" else ",\n") + FileText(files[f], FilesText(files[f + 1..], false, tail))
  {
    assert files[f..][0] == files[f] && files[f..][1..] == files[f + 1..];
  }

  lemma FilesTextEnd(files: seq<FileEntry>, tail: string)
    ensures FilesText(files[0..], true, tail) == FilesText(files, true, tail)
    ensures FilesText(files[|files|..], |files| == 0, tail) == (if |files| == 0 then "" else "\n  ") + tail
  {
    assert files[0..] == files;
  }

  lemma FileTextIs(f: FileEntry, tail: string)
    ensures FileText(f, tail) == "    {\n" + ("      \"path\": \"" + (Escape(f.path) + ("\",\n" + ("      \"size\": "
      + (Decimal(f.size) + (",\n" + ("      \"chunks\": [" + ChunksText(f.chunks, true, "]\n" + ("    }" + tail)))))))))
  {
  }

  /** Prints one file object. */
  method PrintFile(f: FileEntry, os0: string, ghost tail: string, ghost whole: string) returns (os: string)
    requires os0 + FileText(f, tail) == whole
    ensures os + tail == whole
  {
    hide *;
    FileTextIs(f, tail);
    ghost var t7 := ChunksText(f.chunks, true, "]\n" + ("    }" + tail));
    ghost var t6 := "      \"chunks\": [" + t7;
    ghost var t5 := ",\n" + t6;
    ghost var t4 := Decimal(f.size) + t5;
    ghost var t3 := "      \"size\": " + t4;
    ghost var t2 := "\",\n" + t3;
    ghost var t1 := Escape(f.path) + t2;
    ghost var t0 := "      \"path\": \"" + t1;
    Append(os0, "    {\n", t0, whole);
    os := os0 + "    {\n";
    Append(os, "      \"path\": \"", t1, whole);
    os := os + "      \"path\": \"";
    var path := JsonEscape(f.path);
    Append(os, path, t2, whole);
    os := os + path;
    Append(os, "\",\n", t3, whole);
    os := os + "\",\n";
    Append(os, "      \"size\": ", t4, whole);
    os := os + "      \"size\": ";
    Append(os, Decimal(f.size), t5, whole);
    os := os + Decimal(f.size);
    Append(os, ",\n", t6, whole);
    os := os + ",\n";
    Append(os, "      \"chunks\": [", t7, whole);
    os := os + "      \"chunks\": [";
    os := PrintChunks(f.chunks, os, "]\n" + ("    }" + tail), whole);
    Append(os, "]\n", "    }" + tail, whole);
    os := os + "]\n";
    Append(os, "    }", tail, whole);
    os := os + "    }";
  }

  method PrintFiles(files: seq<FileEntry>, os0: string, ghost tail: string, ghost whole: string) returns (os: string)
    requires os0 + FilesText(files, true, tail) == whole
    ensures os + tail == whole
  {
    hide *;
    os := os0;
    FilesTextEnd(files, tail);
    for f := 0 to |files|
      invariant os + FilesText(files[f..], f == 0, tail) == whole
    {
      FilesTextStep(files, f, tail);
      ghost var rest := FilesText(files[f + 1..], false, tail);
      var sep := if f == 0 then "\n" else ",\n";
      Append(os, sep, FileText(files[f], rest), whole);
      os := os + sep;
      os := PrintFile(files[f], os, rest, whole);
    }
    if |files| != 0 {
      Append(os, "\n  ", tail, whole);
      os := os + "\n  ";
    } else {
      assert "" + tail == tail;
    }
  }

  lemma JsonIs(m: Manifest)
    ensures ToJson(m) == "{\n" + ("  \"name\": \"" + (Escape(m.name) + ("\",\n" + ("  \"chunk_size\": "
      + (Decimal(m.chunkSize) + (",\n" + ("  \"seq\": " + (Decimal(m.seqNo) + (",\n" + ("  \"files\": ["
      + FilesText(m.files, true, "]\n" + "}\n")))))))))))
  {
  }

  /** Prints a manifest. */
  method Print(m: Manifest) returns (os: string)
    ensures os == ToJson(m)
  {
    hide *;
    JsonIs(m);
    ghost var whole := ToJson(m);
    ghost var t9 := FilesText(m.files, true, "]\n" + "}\n");
    ghost var t8 := "  \"files\": [" + t9;
    ghost var t7 := Decimal(m.seqNo) + (",\n" + t8);
    ghost var t6 := "  \"seq\": " + t7;
    ghost var t5 := ",\n" + t6;
    ghost var t4 := Decimal(m.chunkSize) + t5;
    ghost var t3 := "  \"chunk_size\": " + t4;
    ghost var t2 := "\",\n" + t3;
    ghost var t1 := Escape(m.name) + t2;
    os := "{\n";
    Append(os, "  \"name\": \"", t1, whole);
    os := os + "  \"name\": \"";
    var name := JsonEscape(m.name);
    Append(os, name, t2, whole);
    os := os + name;
    Append(os, "\",\n", t3, whole);
    os := os + "\",\n";
    Append(os, "  \"chunk_size\": ", t4, whole);
    os := os + "  \"chunk_size\": ";
    Append(os, Decimal(m.chunkSize), t5, whole);
    os := os + Decimal(m.chunkSize);
    Append(os, ",\n", t6, whole);
    os := os + ",\n";
    Append(os, "  \"seq\": ", t7, whole);
    os := os + "  \"seq\": ";
    Append(os, Decimal(m.seqNo), ",\n" + t8, whole);
    os := os + Decimal(m.seqNo);
    Append(os, ",\n", t8, whole);
    os := os + ",\n";
    Append(os, "  \"files\": [", t9, whole);
    os := os + "  \"files\": [";
    os := PrintFiles(m.files, os, "]\n" + "}\n", whole);
    Append(os, "]\n", "}\n", whole);
    os := os + "]\n";
    assert (os + "}\n") == whole;
    os := os + "}\n";
  }

  // ----- Parser -----

  /** The parser fails by throwing: a method returning None leaves the cursor wherever it was. */
  class Parser {
    const s: string
    var i: nat

    constructor (text: string)
      ensures s == text && i == 0
    {
      s := text;
      i := 0;
    }

    ghost predicate Valid()
      reads this
    {
      i <= |s|
    }

    /** The text not yet consumed. */
    function Rest(): string
      requires i <= |s|
      reads this
    {
      s[i..]
    }

    lemma Drop(k: nat)
      requires i + k <= |s|
      ensures Rest()[k..] == s[i + k..] && |Rest()| == |s| - i
      ensures forall j :: 0 <= j < k ==> Rest()[j] == s[i + j]
    {
    }

    method SkipWs()
      requires Valid()
      modifies this
      ensures Valid() && Rest() == SkipSpace(old(Rest()))
    {
      while i < |s| && (s[i] == ' ' || s[i] == '\n' || s[i] == '\r' || s[i] == '\t')
        invariant Valid() && SkipSpace(Rest()) == SkipSpace(old(Rest()))
      {
        assert s[i..][1..] == s[i + 1..];
        i := i + 1;
      }
      assert i < |s| ==> Rest()[0] == s[i];
    }

    method PeekChar() returns (c: Option<char>)
      requires Valid()
      modifies this
      ensures Valid()
      ensures c.None? <==> Peek(old(Rest())).Fail?
      ensures c.Some? ==> Peek(old(Rest())) == Got(c.value, Rest()) && i < |s|
    {
      SkipWs();
      if i >= |s| {
        assert Rest() == "";
        return None;
      }
      assert Rest()[0] == s[i];
      return Some(s[i]);
    }

    method ExpectChar(c: char) returns (ok: bool)
      requires Valid()
      modifies this
      ensures Valid()
      ensures ok <==> Expect(old(Rest()), c).Got?
      ensures ok ==> Expect(old(Rest()), c) == Got((), Rest())
    {
      var p := PeekChar();
      if p.None? || p.value != c {
        return false;
      }
      assert Rest()[1..] == s[i + 1..];
      i := i + 1;
      return true;
    }

    method String() returns (out: Option<string>)
      requires Valid()
      modifies this
      ensures Valid()
      ensures out.None? <==> ParseString(old(Rest())).Fail?
      ensures out.Some? ==> ParseString(old(Rest())) == Got(out.value, Rest())
    {
      ghost var whole := ParseString(Rest());
      var ok := ExpectChar('"');
      if !ok {
        return None;
      }
      var acc := "";
      while i < |s|
        invariant Valid() && StringBody(Rest(), acc) == whole
        decreases |s| - i
      {
        assert Rest()[0] == s[i] && Rest()[1..] == s[i + 1..];
        var c := s[i];
        i := i + 1;
        if c == '"' {
          return Some(acc);
        }
        if c == '\\' {
          if i >= |s| {
            return None;
          }
          assert s[i - 1..][1] == s[i] && s[i - 1..][2..] == s[i + 1..];
          var e := s[i];
          i := i + 1;
          match e {
            case '"' => acc := acc + ['"'];
            case '\\' => acc := acc + ['\\'];
            case '/' => acc := acc + ['/'];
            case 'n' => acc := acc + ['\n'];
            case 'r' => acc := acc + ['\r'];
            case 't' => acc := acc + ['\t'];
            case _ => acc := acc + [e];
          }
        } else {
          acc := acc + [c];
        }
      }
      assert Rest() == "";
      return None;
    }

    method Uint() returns (out: Option<nat>)
      requires Valid()
      modifies this
      ensures Valid()
      ensures out.None? <==> ParseUint(old(Rest())).Fail?
      ensures out.Some? ==> ParseUint(old(Rest())) == Got(out.value, Rest())
    {
      ghost var whole := ParseUint(Rest());
      SkipWs();
      var v: nat, any := 0, false;
      while i < |s| && IsDigit(s[i])
        invariant Valid() && Digits(Rest(), v, any) == whole
      {
        assert Rest()[0] == s[i] && Rest()[1..] == s[i + 1..];
        v := Wrap64(v * 10 + DigitValue(s[i]));
        i := i + 1;
        any := true;
      }
      assert i < |s| ==> Rest()[0] == s[i];
      if !any {
        return None;
      }
      return Some(v);
    }

    /** Consumes the character the cursor is on. */
    method Advance()
      requires i < |s|
      modifies this
      ensures Valid() && old(Rest()) != "" && Rest() == old(Rest())[1..]
    {
      i := i + 1;
    }

    method StringArray() returns (out: Option<seq<string>>)
      requires Valid()
      modifies this
      ensures Valid()
      ensures out.None? <==> ParseStrings(old(Rest())).Fail?
      ensures out.Some? ==> ParseStrings(old(Rest())) == Got(out.value, Rest())
    {
      ghost var whole := ParseStrings(Rest());
      var ok := ExpectChar('[');
      if !ok {
        return None;
      }
      var p := PeekChar();
      if p.None? {
        return None;
      }
      if p.value == ']' {
        Advance();
        return Some([]);
      }
      var acc: seq<string> := [];
      while true
        invariant Valid() && Strings(Rest(), acc) == whole
        decreases |Rest()|
      {
        var x := String();
        if x.None? {
          return None;
        }
        acc := acc + [x.value];
        var c := PeekChar();
        if c.None? {
          return None;
        }
        if c.value == ',' {
          Advance();
          continue;
        }
        if c.value == ']' {
          Advance();
          return Some(acc);
        }
        return None;
      }
    }

    /** The value of one file key; None for an unknown key. */
    method FileValue(key: string, fe: FileEntry) returns (out: Option<FileEntry>)
      requires Valid()
      modifies this
      ensures Valid()
      ensures out.None? <==> FileField(key, old(Rest()), fe).Fail?
      ensures out.Some? ==> FileField(key, old(Rest()), fe) == Got(out.value, Rest())
    {
      if key == "path" {
        var x := String();
        return if x.None? then None else Some(fe.(path := x.value));
      } else if key == "size" {
        var x := Uint();
        return if x.None? then None else Some(fe.(size := x.value));
      } else if key == "chunks" {
        var x := StringArray();
        return if x.None? then None else Some(fe.(chunks := x.value));
      }
      return None;
    }

    /** A quoted key and its colon. */
    method Key() returns (key: Option<string>)
      requires Valid()
      modifies this
      ensures Valid()
      ensures key.Some? ==>
        && ParseString(old(Rest())).Got? && ParseString(old(Rest())).value == key.value
        && Expect(ParseString(old(Rest())).rest, ':') == Got((), Rest())
      ensures key.None? ==>
        ParseString(old(Rest())).Fail? || Expect(ParseString(old(Rest())).rest, ':').Fail?
    {
      key := String();
      if key.None? {
        return;
      }
      var ok := ExpectChar(':');
      if !ok {
        return None;
      }
    }

    /** The keys of one file object, after its opening brace. */
    method FileObject() returns (out: Option<FileEntry>)
      requires Valid()
      modifies this
      ensures Valid()
      ensures out.None? <==> FileFields(old(Rest()), FileEntry("", 0, [])).Fail?
      ensures out.Some? ==> FileFields(old(Rest()), FileEntry("", 0, [])) == Got(out.value, Rest())
    {
      var fe := FileEntry("", 0, []);
      ghost var whole := FileFields(Rest(), fe);
      while true
        invariant Valid() && FileFields(Rest(), fe) == whole
        decreases |Rest()|
      {
        var key := Key();
        if key.None? {
          return None;
        }
        var next := FileValue(key.value, fe);
        if next.None? {
          return None;
        }
        fe := next.value;
        var c := PeekChar();
        if c.None? {
          return None;
        }
        if c.value == ',' {
          Advance();
          continue;
        }
        if c.value == '}' {
          Advance();
          return Some(fe);
        }
        return None;
      }
    }

    /** The list of files, appended to those already read. */
    method FileList(acc0: seq<FileEntry>) returns (out: Option<seq<FileEntry>>)
      requires Valid()
      modifies this
      ensures Valid()
      ensures out.None? <==> ParseFiles(old(Rest()), acc0).Fail?
      ensures out.Some? ==> ParseFiles(old(Rest()), acc0) == Got(out.value, Rest())
    {
      ghost var whole := ParseFiles(Rest(), acc0);
      var ok := ExpectChar('[');
      if !ok {
        return None;
      }
      var p := PeekChar();
      if p.None? {
        return None;
      }
      if p.value == ']' {
        Advance();
        return Some(acc0);
      }
      var acc := acc0;
      while true
        invariant Valid() && Files(Rest(), acc) == whole
        decreases |Rest()|
      {
        ok := ExpectChar('{');
        if !ok {
          return None;
        }
        var fe := FileObject();
        if fe.None? {
          return None;
        }
        acc := acc + [fe.value];
        var c := PeekChar();
        if c.None? {
          return None;
        }
        if c.value == ',' {
          Advance();
          continue;
        }
        if c.value == ']' {
          Advance();
          return Some(acc);
        }
        return None;
      }
    }

    /** The value of one top-level key; None for an unknown key. */
    method Value(key: string, m: Manifest) returns (out: Option<Manifest>)
      requires Valid()
      modifies this
      ensures Valid()
      ensures out.None? <==> Field(key, old(Rest()), m).Fail?
      ensures out.Some? ==> Field(key, old(Rest()), m) == Got(out.value, Rest())
    {
      if key == "name" {
        var x := String();
        return if x.None? then None else Some(m.(name := x.value));
      } else if key == "chunk_size" {
        var x := Uint();
        return if x.None? then None else Some(m.(chunkSize := Cut32(x.value)));
      } else if key == "seq" {
        var x := Uint();
        return if x.None? then None else Some(m.(seqNo := x.value));
      } else if key == "files" {
        var x := FileList(m.files);
        return if x.None? then None else Some(m.(files := x.value));
      }
      return None;
    }
  }

  /** Parses a manifest. */
  method Parse(text: string) returns (out: Option<Manifest>)
    ensures out == FromJson(text)
  {
    var p := new Parser(text);
    assert p.Rest() == text;
    var ok := p.ExpectChar('{');
    if !ok {
      return None;
    }
    var m := EMPTY_MANIFEST;
    ghost var whole := Fields(p.Rest(), m);
    while true
      invariant p.Valid() && Fields(p.Rest(), m) == whole
      decreases |p.Rest()|
    {
      var key := p.Key();
      if key.None? {
        return None;
      }
      var next := p.Value(key.value, m);
      if next.None? {
        return None;
      }
      m := next.value;
      var c := p.PeekChar();
      if c.None? {
        return None;
      }
      if c.value == ',' {
        p.Advance();
        continue;
      }
      if c.value == '}' {
        p.Advance();
        return Some(m);
      }
      return None;
    }
  }
}
