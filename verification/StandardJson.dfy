/** How a standard JSON decoder reads a printed manifest, from its text. */
module StandardJson {
  import opened Common
  import opened Manifests
  import opened ManifestText
  import opened ManifestRoundTrip
  import opened ManifestNumbers
  import opened StandardStrings

  // ----- The decoder (RFC 8259): strings, unsigned integers, arrays and objects -----

  datatype Json =
    | JString(text: string)
    | JNumber(digits: string)
    | JArray(items: seq<Json>)
    | JObject(members: seq<(string, Json)>)

  /** How many digits a text starts with. */
  function DigitRun(t: string): (k: nat)
    ensures k <= |t|
  {
    if t == "" || !AllDigits(t[..1]) then 0 else 1 + DigitRun(t[1..])
  }

  /** An integer has no leading zero (section 6). */
  function Number(t: string): (p: Parsed<Json>)
    ensures p.Got? ==> |p.rest| < |t|
  {
    var k := DigitRun(t);
    if k == 0 || (k > 1 && t[0] == '0') then Fail else Got(JNumber(t[..k]), t[k..])
  }

  function Value(t: string): (p: Parsed<Json>)
    ensures p.Got? ==> |p.rest| < |t|
    decreases |t|, 0
  {
    var r := SkipSpace(t);
    if r == "" then Fail
    else if r[0] == '"' then
      match StandardBody(r[1..]) case Fail => Fail case Got(s, rest) => Got(JString(s), rest)
    else if r[0] == '[' then
      var q := SkipSpace(r[1..]);
      if q != "" && q[0] == ']' then Got(JArray([]), q[1..]) else Items(r[1..], [])
    else if r[0] == '{' then
      var q := SkipSpace(r[1..]);
      if q != "" && q[0] == '}' then Got(JObject([]), q[1..]) else Members(r[1..], [])
    else Number(r)
  }

  function Items(t: string, acc: seq<Json>): (p: Parsed<Json>)
    ensures p.Got? ==> |p.rest| < |t|
    decreases |t|, 1
  {
    match Value(t)
    case Fail => Fail
    case Got(x, r) =>
      match Peek(r)
      case Fail => Fail
      case Got(c, q) =>
        if c == ',' then Items(q[1..], acc + [x])
        else if c == ']' then Got(JArray(acc + [x]), q[1..])
        else Fail
  }

  function Members(t: string, acc: seq<(string, Json)>): (p: Parsed<Json>)
    ensures p.Got? ==> |p.rest| < |t|
    decreases |t|, 1
  {
    match Key(t)
    case Fail => Fail
    case Got(key, r0) =>
      match Value(r0)
      case Fail => Fail
      case Got(x, r1) =>
        match Peek(r1)
        case Fail => Fail
        case Got(c, q) =>
          if c == ',' then Members(q[1..], acc + [(key, x)])
          else if c == '}' then Got(JObject(acc + [(key, x)]), q[1..])
          else Fail
  }

  /** A member's name and its colon. */
  function Key(t: string): (p: Parsed<string>)
    ensures p.Got? ==> |p.rest| < |t|
  {
    match Expect(t, '"')
    case Fail => Fail
    case Got(_, r) =>
      match StandardBody(r)
      case Fail => Fail
      case Got(key, r') => match Expect(r', ':') case Fail => Fail case Got(_, rest) => Got(key, rest)
  }

  // ----- The record it fills: unknown names are passed over, missing ones leave the zero value -----

  function Lookup(members: seq<(string, Json)>, key: string): Option<Json> {
    if members == [] then None
    else
      var last := members[|members| - 1];
      if last.0 == key then Some(last.1) else Lookup(members[..|members| - 1], key)
  }

  function TextField(members: seq<(string, Json)>, key: string): Option<string> {
    match Lookup(members, key)
    case None => Some("")
    case Some(j) => if j.JString? then Some(j.text) else None
  }

  /** An unsigned field below `limit`. */
  function NumberField(members: seq<(string, Json)>, key: string, limit: nat): Option<nat> {
    match Lookup(members, key)
    case None => Some(0)
    case Some(j) => if j.JNumber? && 0 <= Spelled(j.digits) < limit then Some(Spelled(j.digits)) else None
  }

  function ListField(members: seq<(string, Json)>, key: string): Option<seq<Json>> {
    match Lookup(members, key)
    case None => Some([])
    case Some(j) => if j.JArray? then Some(j.items) else None
  }

  function Texts(items: seq<Json>): Option<seq<string>> {
    if items == [] then Some([])
    else
      var rest := Texts(items[1..]);
      if items[0].JString? && rest.Some? then Some([items[0].text] + rest.value) else None
  }

  function FileRecord(j: Json): Option<FileEntry> {
    if !j.JObject? then None
    else
      var path, size := TextField(j.members, "path"), NumberField(j.members, "size", TWO_64);
      var items := ListField(j.members, "chunks");
      var chunks := if items.Some? then Texts(items.value) else None;
      if path.Some? && size.Some? && chunks.Some? then Some(FileEntry(path.value, size.value, chunks.value)) else None
  }

  function FileRecords(items: seq<Json>): Option<seq<FileEntry>> {
    if items == [] then Some([])
    else
      var first, rest := FileRecord(items[0]), FileRecords(items[1..]);
      if first.Some? && rest.Some? then Some([first.value] + rest.value) else None
  }

  function ManifestRecord(j: Json): Option<Manifest> {
    if !j.JObject? then None
    else
      var name, chunkSize := TextField(j.members, "name"), NumberField(j.members, "chunk_size", TWO_32);
      var seqNo, items := NumberField(j.members, "seq", TWO_64), ListField(j.members, "files");
      var files := if items.Some? then FileRecords(items.value) else None;
      if name.Some? && chunkSize.Some? && seqNo.Some? && files.Some?
      then Some(Manifest(name.value, chunkSize.value, seqNo.value, files.value))
      else None
  }

  /** The whole text must be one value. */
  function StandardManifest(text: string): Option<Manifest> {
    match Value(text)
    case Fail => None
    case Got(j, rest) => if SkipSpace(rest) == "" then ManifestRecord(j) else None
  }

  // ----- Escapes -----

  /** The two layers read the same character after a backslash for these six, and for no other. */
  lemma EscapesAgreeIff(c: char)
    ensures StandardStrings.Unescape(c) == Some(ManifestText.Unescape(c)) <==> c in "\"\\/nrt"
    ensures c == 'b' ==> StandardStrings.Unescape(c) == Some(8 as char) && ManifestText.Unescape(c) == 'b'
    ensures c == 'f' ==> StandardStrings.Unescape(c) == Some(12 as char) && ManifestText.Unescape(c) == 'f'
  {
    var six := "\"\\/nrt";
    assert six[0] == '"' && six[1] == '\\' && six[2] == '/' && six[3] == 'n' && six[4] == 'r' && six[5] == 't';
  }

  // ----- Tokens of the printed form -----

  /** A printed string as a value. */
  lemma StringValue(x: string, next: string)
    ensures Value(" \"" + (Escape(x) + ("\"" + next))) ==
      if Legible(x) then Got(JString(Coerce(x)), next) else Fail
  {
    hide *;
    StringText(x, next);
    NewlineIsSpace();
    MarksAreNoSpace();
    SkipTo(" ", '"', Quoted(x, next));
    ReadQuoted(x, next);
    StringAt(" " + ("\"" + Quoted(x, next)), Quoted(x, next));
  }

  lemma StringText(x: string, next: string)
    ensures " \"" + (Escape(x) + ("\"" + next)) == " " + ("\"" + Quoted(x, next))
  {
    hide Escape;
  }

  lemma StringAt(t: string, r: string)
    requires SkipSpace(t) == ['"'] + r
    ensures StandardBody(r).Fail? ==> Value(t) == Fail
    ensures forall s, rest :: StandardBody(r) == Got(s, rest) ==> Value(t) == Got(JString(s), rest)
  {
    hide SkipSpace, StandardBody, Items, Members, Number;
  }

  lemma SimpleValue(ws: string, h: string, next: string)
    requires AllSpace(ws) && Simple(h)
    ensures Value(ws + ("\"" + (h + ("\"" + next)))) == Got(JString(h), next)
    ensures Peek(ws + ("\"" + (h + ("\"" + next)))) == Got('"', "\"" + (h + ("\"" + next)))
  {
    hide Simple;
    SimpleIsItself(h);
    assert h + ("\"" + next) == Quoted(h, next);
    SkipTo(ws, '"', h + ("\"" + next));
    ReadBackIff(h, next);
  }

  lemma {:induction false} RunLength(d: string, rest: string)
    requires AllDigits(d) && (rest == "" || !AllDigits(rest[..1]))
    ensures DigitRun(d + rest) == |d|
    decreases |d|
  {
    if d == "" {
      assert d + rest == rest;
    } else {
      assert (d + rest)[1..] == d[1..] + rest;
      RunLength(d[1..], rest);
    }
  }

  lemma NumberValue(n: nat, next: string)
    requires next != "" && !AllDigits(next[..1])
    ensures Value(" " + (Decimal(n) + next)) == Got(JNumber(Decimal(n)), next)
  {
    hide *;
    var d := Decimal(n);
    DecimalSpells(n);
    RunLength(d, next);
    NewlineIsSpace();
    DigitIsNoSpace(d);
    assert d + next == [d[0]] + (d[1..] + next);
    SkipTo(" ", d[0], d[1..] + next);
    NumberAt(" " + (d + next), d, next);
  }

  lemma DigitIsNoSpace(d: string)
    requires d != "" && AllDigits(d)
    ensures !IsSpace(d[0])
  {
  }

  lemma NumberAt(t: string, d: string, next: string)
    requires SkipSpace(t) == d + next && DigitRun(d + next) == |d|
    requires d != "" && AllDigits(d) && (|d| > 1 ==> d[0] as int != 48)
    ensures Value(t) == Got(JNumber(d), next)
  {
    hide SkipSpace, StandardBody, Items, Members, DigitRun;
    assert (d + next)[..|d|] == d && (d + next)[|d|..] == next && (d + next)[0] == d[0];
  }

  // ----- Members of an object, one line each -----

  lemma ReadMemberKey(indent: string, key: string, v: string, rest: string)
    requires AllSpace(indent) && Simple(key)
    ensures Key("\n" + (Label(indent, key, v) + rest)) == Got(key, v + rest)
    ensures Peek("\n" + (Label(indent, key, v) + rest)).Got? && Peek("\n" + (Label(indent, key, v) + rest)).value == '"'
  {
    hide *;
    var after := ":" + (v + rest);
    SimpleIsItself(key);
    KeyText(indent, key, v, rest);
    NewlineIsSpace();
    SpacesAdd("\n", indent);
    MarksAreNoSpace();
    SkipTo("\n" + indent, '"', Quoted(key, after));
    ReadBackIff(key, after);
    SkipTo("", ':', v + rest);
    assert "" + (":" + (v + rest)) == after;
    KeyIs("\n" + (Label(indent, key, v) + rest), Quoted(key, after), key, after, v + rest);
  }

  lemma KeyText(indent: string, key: string, v: string, rest: string)
    requires Escape(key) == key
    ensures "\n" + (Label(indent, key, v) + rest) == ("\n" + indent) + ("\"" + Quoted(key, ":" + (v + rest)))
  {
    hide Escape;
    assert "\n" + (Label(indent, key, v) + rest)
      == ("\n" + indent) + ("\"" + (key + ("\"" + (":" + (v + rest)))));
  }

  lemma MarksAreNoSpace()
    ensures !IsSpace('"') && !IsSpace(':')
  {
  }

  lemma KeyIs(t: string, r: string, key: string, after: string, rest: string)
    requires Expect(t, '"') == Got((), r) && StandardBody(r) == Got(key, after) && Expect(after, ':') == Got((), rest)
    ensures Key(t) == Got(key, rest)
  {
    hide Expect, StandardBody;
  }

  /** A member followed by another on the next line. */
  lemma NextMember(t: string, acc: seq<(string, Json)>, key: string, value: string, x: Json, next: string)
    requires Key(t) == Got(key, value) && Value(value) == Got(x, ",\n" + next)
    ensures Members(t, acc) == Members("\n" + next, acc + [(key, x)])
  {
    NextLine(next);
  }

  lemma LastMember(t: string, acc: seq<(string, Json)>, key: string, value: string, x: Json, ws: string, tail: string)
    requires Key(t) == Got(key, value) && AllSpace(ws) && Value(value) == Got(x, ws + ("}" + tail))
    ensures Members(t, acc) == Got(JObject(acc + [(key, x)]), tail)
  {
    SkipTo(ws, '}', tail);
    assert ("}" + tail)[1..] == tail;
  }

  lemma BadMember(t: string, acc: seq<(string, Json)>, key: string, value: string)
    requires Key(t) == Got(key, value) && Value(value) == Fail
    ensures Members(t, acc) == Fail
  {
  }

  lemma StringMember(indent: string, key: string, x: string, next: string, acc: seq<(string, Json)>)
    requires AllSpace(indent) && Simple(key)
    ensures Members("\n" + (Label(indent, key, " \"") + (Escape(x) + ("\",\n" + next))), acc) ==
      if Legible(x) then Members("\n" + next, acc + [(key, JString(Coerce(x)))]) else Fail
  {
    hide *;
    var rest := Escape(x) + ("\",\n" + next);
    var t := "\n" + (Label(indent, key, " \"") + rest);
    ReadMemberKey(indent, key, " \"", rest);
    assert rest == Escape(x) + ("\"" + (",\n" + next));
    StringValue(x, ",\n" + next);
    if Legible(x) {
      NextMember(t, acc, key, " \"" + rest, JString(Coerce(x)), next);
    } else {
      BadMember(t, acc, key, " \"" + rest);
    }
  }

  lemma NumberMember(indent: string, key: string, n: nat, next: string, acc: seq<(string, Json)>)
    requires AllSpace(indent) && Simple(key)
    ensures Members("\n" + (Label(indent, key, " ") + (Decimal(n) + (",\n" + next))), acc) ==
      Members("\n" + next, acc + [(key, JNumber(Decimal(n)))])
  {
    hide *;
    var rest := Decimal(n) + (",\n" + next);
    ReadMemberKey(indent, key, " ", rest);
    CommaIsNoDigit(next);
    NumberValue(n, ",\n" + next);
    NextMember("\n" + (Label(indent, key, " ") + rest), acc, key, " " + rest, JNumber(Decimal(n)), next);
  }

  lemma CommaIsNoDigit(next: string)
    ensures !AllDigits((",\n" + next)[..1])
  {
    assert (",\n" + next)[..1] == "," && ","[0] as int == 44;
  }

  // ----- Lists -----

  function ChunkItems(chunks: seq<Hash>): seq<Json> {
    if chunks == [] then [] else [JString(chunks[0])] + ChunkItems(chunks[1..])
  }

  lemma {:induction false} ChunksRead(chunks: seq<Hash>, ws: string, tail: string, acc: seq<Json>)
    requires chunks != [] && AllSpace(ws) && forall h :: h in chunks ==> Simple(h)
    ensures Items(ws + ("\"" + (chunks[0] + ("\"" + ChunksText(chunks[1..], false, "]" + tail)))), acc)
            == Got(JArray(acc + ChunkItems(chunks)), tail)
    decreases |chunks|
  {
    hide *;
    var more := chunks[1..];
    var rest := ChunksText(more, false, "]" + tail);
    var text := ws + ("\"" + (chunks[0] + ("\"" + rest)));
    SimpleValue(ws, chunks[0], rest);
    ChunksUnfold(chunks, acc);
    ChunksTextIs(more, "]" + tail);
    NewlineIsSpace();
    if more == [] {
      SkipTo("", ']', tail);
      assert "" + ("]" + tail) == "]" + tail;
      LastItem(text, acc, JString(chunks[0]), rest, tail);
    } else {
      var next := "\"" + (more[0] + ("\"" + ChunksText(more[1..], false, "]" + tail)));
      CommaNext(" " + next);
      NextItem(text, acc, JString(chunks[0]), rest, " " + next);
      ChunksRead(more, " ", tail, acc + [JString(chunks[0])]);
    }
  }

  lemma ChunksUnfold(chunks: seq<Hash>, acc: seq<Json>)
    requires chunks != []
    ensures acc + ChunkItems(chunks) == acc + [JString(chunks[0])] + ChunkItems(chunks[1..])
    ensures chunks[1..] == [] ==> acc + ChunkItems(chunks) == acc + [JString(chunks[0])]
  {
    Regroup(acc, JString(chunks[0]), ChunkItems(chunks[1..]));
  }

  lemma Regroup(acc: seq<Json>, x: Json, rest: seq<Json>)
    ensures acc + ([x] + rest) == acc + [x] + rest
    ensures rest == [] ==> acc + ([x] + rest) == acc + [x]
  {
  }

  lemma ChunksTextIs(chunks: seq<Hash>, tail: string)
    ensures chunks == [] ==> ChunksText(chunks, false, tail) == tail && !IsSpace(']')
    ensures chunks != [] ==>
      ChunksText(chunks, false, tail)
      == "," + (" " + ("\"" + (chunks[0] + ("\"" + ChunksText(chunks[1..], false, tail)))))
  {
  }

  lemma CommaNext(rest: string)
    ensures Peek("," + rest) == Got(',', "," + rest)
  {
    assert "" + ("," + rest) == "," + rest;
    SkipTo("", ',', rest);
  }

  lemma ListValue(body: string)
    ensures Peek(body).Got? && Peek(body).value != ']' ==> Value(" [" + body) == Items(body, [])
    ensures Peek(body).Got? && Peek(body).value == ']' ==> Value(" [" + body) == Got(JArray([]), Peek(body).rest[1..])
  {
    assert " [" + body == " " + ("[" + body);
    SkipTo(" ", '[', body);
    assert ("[" + body)[1..] == body;
  }

  lemma ChunksValue(chunks: seq<Hash>, tail: string)
    requires forall h :: h in chunks ==> Simple(h)
    ensures Value(" [" + ChunksText(chunks, true, "]" + tail)) == Got(JArray(ChunkItems(chunks)), tail)
  {
    hide Simple, SkipSpace, Value, Items;
    var body := ChunksText(chunks, true, "]" + tail);
    ListValue(body);
    if chunks == [] {
      assert body == "" + ("]" + tail);
      SkipTo("", ']', tail);
    } else {
      var rest := ChunksText(chunks[1..], false, "]" + tail);
      assert body == "" + ("\"" + (chunks[0] + ("\"" + rest)));
      SimpleValue("", chunks[0], rest);
      ChunksRead(chunks, "", tail, []);
      assert [] + ChunkItems(chunks) == ChunkItems(chunks);
    }
  }

  // ----- Files -----

  function FileJson(f: FileEntry): Json {
    JObject([("path", JString(Coerce(f.path))), ("size", JNumber(Decimal(f.size))),
             ("chunks", JArray(ChunkItems(f.chunks)))])
  }

  function FileJsons(files: seq<FileEntry>): seq<Json> {
    if files == [] then [] else [FileJson(files[0])] + FileJsons(files[1..])
  }

  lemma KeysAreSimple()
    ensures Simple("path") && Simple("size") && Simple("chunks")
    ensures Simple("name") && Simple("chunk_size") && Simple("seq") && Simple("files")
  {
  }

  lemma ChunksMember(chunks: seq<Hash>, tail: string, acc: seq<(string, Json)>)
    requires forall h :: h in chunks ==> Simple(h)
    ensures Members("\n" + ("      \"chunks\": [" + ChunksText(chunks, true, "]\n" + ("    }" + tail))), acc)
            == Got(JObject(acc + [("chunks", JArray(ChunkItems(chunks)))]), tail)
  {
    hide *;
    FileClose(tail);
    FileLabels();
    KeysAreSimple();
    var rest := ChunksText(chunks, true, "]\n" + ("    }" + tail));
    ReadMemberKey("      ", "chunks", " [", rest);
    ChunksValue(chunks, "\n    " + ("}" + tail));
    LastMember("\n" + ("      \"chunks\": [" + rest), acc, "chunks", " [" + rest, JArray(ChunkItems(chunks)),
               "\n    ", tail);
  }

  lemma ThreeMembers(a: (string, Json), b: (string, Json), c: (string, Json))
    ensures [] + [a] == [a] && [a] + [b] + [c] == [a, b, c] && [a] + [b] == [a, b] && [a, b] + [c] == [a, b, c]
  {
  }

  lemma FileMembers(f: FileEntry, tail: string)
    requires forall h :: h in f.chunks ==> Simple(h)
    ensures Members(FileBody(f, tail), []) == if Legible(f.path) then Got(FileJson(f), tail) else Fail
  {
    hide Legible, Coerce, Simple, Members, Escape, Decimal, ChunksText, ChunkItems;
    var t2 := "      \"chunks\": [" + ChunksText(f.chunks, true, "]\n" + ("    }" + tail));
    var t1 := "      \"size\": " + (Decimal(f.size) + (",\n" + t2));
    var path, size := ("path", JString(Coerce(f.path))), ("size", JNumber(Decimal(f.size)));
    FileLabels();
    KeysAreSimple();
    BodyIs(f, tail);
    StringMember("      ", "path", f.path, t1, []);
    NumberMember("      ", "size", f.size, t2, [path]);
    ChunksMember(f.chunks, tail, [path, size]);
    ThreeMembers(path, size, ("chunks", JArray(ChunkItems(f.chunks))));
  }

  lemma ObjectValue(ws: string, body: string)
    requires AllSpace(ws)
    ensures Peek(ws + ("{" + body)) == Got('{', "{" + body)
    ensures Peek(body).Got? && Peek(body).value != '}' ==> Value(ws + ("{" + body)) == Members(body, [])
  {
    SkipTo(ws, '{', body);
    assert ("{" + body)[1..] == body;
  }

  lemma FileValue(f: FileEntry, ws: string, tail: string)
    requires AllSpace(ws) && forall h :: h in f.chunks ==> Simple(h)
    ensures Value(ws + FileText(f, tail)) == if Legible(f.path) then Got(FileJson(f), tail) else Fail
    ensures Peek(ws + FileText(f, tail)).Got? && Peek(ws + FileText(f, tail)).value == '{'
  {
    hide *;
    var body := FileBody(f, tail);
    FileBrace(f, tail);
    assert ws + ("    " + ("{" + body)) == (ws + "    ") + ("{" + body);
    SpacesAdd(ws, "    ");
    ObjectValue(ws + "    ", body);
    BodyStarts(f, tail);
    FileMembers(f, tail);
  }

  lemma SpacesAdd(a: string, b: string)
    requires AllSpace(a) && AllSpace(b)
    ensures AllSpace(a + b)
  {
  }

  lemma BodyStarts(f: FileEntry, tail: string)
    ensures Peek(FileBody(f, tail)).Got? && Peek(FileBody(f, tail)).value == '"'
  {
    hide *;
    BodyIs(f, tail);
    FileLabels();
    KeysAreSimple();
    ReadMemberKey("      ", "path", " \"", Escape(f.path) + ("\",\n" + ("      \"size\": " +
      (Decimal(f.size) + (",\n" + ("      \"chunks\": [" + ChunksText(f.chunks, true, "]\n" + ("    }" + tail))))))));
  }

  predicate AllLegible(files: seq<FileEntry>) {
    files == [] || (Legible(files[0].path) && AllLegible(files[1..]))
  }

  /** Every chunk hash is printable without escapes. */
  predicate SimpleHashes(files: seq<FileEntry>) {
    forall f, h :: f in files && h in f.chunks ==> Simple(h)
  }

  lemma SimpleFirst(files: seq<FileEntry>)
    requires files != [] && SimpleHashes(files)
    ensures (forall h :: h in files[0].chunks ==> Simple(h)) && SimpleHashes(files[1..])
  {
    assert files[0] in files;
  }

  lemma {:induction false} FilesRead(files: seq<FileEntry>, ws: string, tail: string, acc: seq<Json>)
    requires files != [] && AllSpace(ws) && SimpleHashes(files)
    ensures Items(ws + FileText(files[0], FilesText(files[1..], false, "]" + tail)), acc)
            == if AllLegible(files) then Got(JArray(acc + FileJsons(files)), tail) else Fail
    decreases |files|
  {
    hide *;
    var f, more := files[0], files[1..];
    var rest := FilesText(more, false, "]" + tail);
    SimpleFirst(files);
    FileValue(f, ws, rest);
    FilesTextIs(more, "]" + tail);
    FilesUnfold(files, acc);
    var text := ws + FileText(f, rest);
    if !Legible(f.path) {
      ItemFails(text, acc);
    } else if more == [] {
      CloseList("\n  ", tail);
      LastItem(text, acc, FileJson(f), rest, tail);
    } else {
      var next := FileText(more[0], FilesText(more[1..], false, "]" + tail));
      NextLine(next);
      NextItem(text, acc, FileJson(f), rest, "\n" + next);
      NewlineIsSpace();
      FilesRead(more, "\n", tail, acc + [FileJson(f)]);
    }
  }

  lemma FilesUnfold(files: seq<FileEntry>, acc: seq<Json>)
    requires files != []
    ensures AllLegible(files) <==> Legible(files[0].path) && AllLegible(files[1..])
    ensures acc + FileJsons(files) == acc + [FileJson(files[0])] + FileJsons(files[1..])
    ensures files[1..] == [] ==> AllLegible(files[1..]) && acc + FileJsons(files) == acc + [FileJson(files[0])]
  {
    hide Legible, FileJson;
    Regroup(acc, FileJson(files[0]), FileJsons(files[1..]));
  }

  lemma ItemFails(t: string, acc: seq<Json>)
    requires Value(t) == Fail
    ensures Items(t, acc) == Fail
  {
  }

  lemma LastItem(t: string, acc: seq<Json>, x: Json, rest: string, tail: string)
    requires Value(t) == Got(x, rest) && Peek(rest) == Got(']', "]" + tail)
    ensures Items(t, acc) == Got(JArray(acc + [x]), tail)
  {
    assert ("]" + tail)[1..] == tail;
  }

  lemma NextItem(t: string, acc: seq<Json>, x: Json, rest: string, next: string)
    requires Value(t) == Got(x, rest) && Peek(rest) == Got(',', "," + next)
    ensures Items(t, acc) == Items(next, acc + [x])
  {
    assert ("," + next)[1..] == next;
  }

  lemma FilesValue(files: seq<FileEntry>, tail: string)
    requires SimpleHashes(files)
    ensures Value(" [" + FilesText(files, true, "]" + tail)) ==
      if AllLegible(files) then Got(JArray(FileJsons(files)), tail) else Fail
  {
    hide *;
    var body := FilesText(files, true, "]" + tail);
    FilesTextIs(files, "]" + tail);
    NewlineIsSpace();
    ListValue(body);
    if files == [] {
      CloseList("", tail);
      assert "" + ("]" + tail) == "]" + tail;
      NoFiles();
    } else {
      SimpleFirst(files);
      FileValue(files[0], "\n", FilesText(files[1..], false, "]" + tail));
      FilesRead(files, "\n", tail, []);
      assert [] + FileJsons(files) == FileJsons(files);
    }
  }

  lemma NoFiles()
    ensures AllLegible([]) && FileJsons([]) == []
  {
  }

  // ----- Whole manifests -----

  function ManifestJson(m: Manifest): Json {
    JObject([("name", JString(Coerce(m.name))), ("chunk_size", JNumber(Decimal(m.chunkSize))),
             ("seq", JNumber(Decimal(m.seqNo))), ("files", JArray(FileJsons(m.files)))])
  }

  lemma FilesMember(files: seq<FileEntry>, acc: seq<(string, Json)>, end: string)
    requires SimpleHashes(files)
    ensures Members("\n" + ("  \"files\": [" + FilesText(files, true, "]\n" + ("}" + end))), acc)
            == if AllLegible(files) then Got(JObject(acc + [("files", JArray(FileJsons(files)))]), end) else Fail
  {
    hide *;
    ManifestClose(end);
    ManifestLabels();
    NewlineIsSpace();
    KeysAreSimple();
    var rest := FilesText(files, true, "]\n" + ("}" + end));
    var t := "\n" + ("  \"files\": [" + rest);
    ReadMemberKey("  ", "files", " [", rest);
    FilesValue(files, "\n" + ("}" + end));
    if AllLegible(files) {
      LastMember(t, acc, "files", " [" + rest, JArray(FileJsons(files)), "\n", end);
    } else {
      BadMember(t, acc, "files", " [" + rest);
    }
  }

  lemma FourMembers(a: (string, Json), b: (string, Json), c: (string, Json), d: (string, Json))
    ensures [] + [a] == [a] && [a] + [b] == [a, b] && [a, b] + [c] == [a, b, c] && [a, b, c] + [d] == [a, b, c, d]
  {
  }

  /** The text of a printed manifest is one object with its fields, unless a name has a raw control character. */
  lemma PrintedValue(m: Manifest)
    requires SimpleHashes(m.files)
    ensures Value(ToJson(m)) == if Legible(m.name) && AllLegible(m.files) then Got(ManifestJson(m), "\n") else Fail
  {
    hide Legible, AllLegible, Coerce, Simple, SimpleHashes, Members, Value, Escape, Decimal, FilesText, FileJsons, Peek;
    var t3 := "  \"files\": [" + FilesText(m.files, true, "]\n" + ("}" + "\n"));
    var t2 := "  \"seq\": " + (Decimal(m.seqNo) + (",\n" + t3));
    var t1 := "  \"chunk_size\": " + (Decimal(m.chunkSize) + (",\n" + t2));
    var name, size := ("name", JString(Coerce(m.name))), ("chunk_size", JNumber(Decimal(m.chunkSize)));
    var number := ("seq", JNumber(Decimal(m.seqNo)));
    ManifestBrace(m);
    ManifestLabels();
    KeysAreSimple();
    NewlineIsSpace();
    ReadMemberKey("  ", "name", " \"", Escape(m.name) + ("\",\n" + t1));
    assert ToJson(m) == "" + ("{" + ManifestBody(m, "\n"));
    ObjectValue("", ManifestBody(m, "\n"));
    StringMember("  ", "name", m.name, t1, []);
    NumberMember("  ", "chunk_size", m.chunkSize, t2, [name]);
    NumberMember("  ", "seq", m.seqNo, t3, [name, size]);
    FilesMember(m.files, [name, size, number], "\n");
    FourMembers(name, size, number, ("files", JArray(FileJsons(m.files))));
  }

  // ----- From the text back to the record -----

  function CoerceFiles(files: seq<FileEntry>): seq<FileEntry> {
    if files == [] then [] else [files[0].(path := Coerce(files[0].path))] + CoerceFiles(files[1..])
  }

  predicate SizesFit(files: seq<FileEntry>) {
    files == [] || (files[0].size < TWO_64 && SizesFit(files[1..]))
  }

  lemma {:induction false} TextsBack(chunks: seq<Hash>)
    ensures Texts(ChunkItems(chunks)) == Some(chunks)
  {
    if chunks != [] {
      TextsBack(chunks[1..]);
      assert ChunkItems(chunks)[1..] == ChunkItems(chunks[1..]);
      assert chunks == [chunks[0]] + chunks[1..];
    }
  }

  lemma FileRecordBack(f: FileEntry)
    ensures FileRecord(FileJson(f)) == if f.size < TWO_64 then Some(f.(path := Coerce(f.path))) else None
  {
    hide Coerce, Decimal, ChunkItems;
    DecimalSpells(f.size);
    TextsBack(f.chunks);
    var ms := FileJson(f).members;
    assert ms[..2] == [ms[0], ms[1]] && [ms[0], ms[1]][..1] == [ms[0]];
    assert Lookup(ms, "chunks") == Some(ms[2].1) && Lookup(ms, "size") == Some(ms[1].1);
    assert Lookup(ms, "path") == Lookup(ms[..2], "path") == Lookup([ms[0]], "path") == Some(ms[0].1);
  }

  lemma {:induction false} FileRecordsBack(files: seq<FileEntry>)
    ensures FileRecords(FileJsons(files)) == if SizesFit(files) then Some(CoerceFiles(files)) else None
  {
    if files != [] {
      hide FileRecord, FileJson, Coerce;
      FileRecordBack(files[0]);
      FileRecordsBack(files[1..]);
      assert FileJsons(files)[1..] == FileJsons(files[1..]);
    }
  }

  lemma ManifestRecordBack(m: Manifest)
    ensures ManifestRecord(ManifestJson(m)) ==
      if m.chunkSize < TWO_32 && m.seqNo < TWO_64 && SizesFit(m.files)
      then Some(m.(name := Coerce(m.name), files := CoerceFiles(m.files)))
      else None
  {
    hide Coerce, Decimal, FileJsons, FileRecords, SizesFit, CoerceFiles;
    DecimalSpells(m.chunkSize);
    DecimalSpells(m.seqNo);
    FileRecordsBack(m.files);
    var ms := ManifestJson(m).members;
    var three, two := [ms[0], ms[1], ms[2]], [ms[0], ms[1]];
    assert ms[..3] == three && three[..2] == two && two[..1] == [ms[0]];
    assert Lookup(ms, "files") == Some(ms[3].1) && Lookup(ms, "seq") == Some(ms[2].1);
    assert Lookup(ms, "chunk_size") == Lookup(three, "chunk_size") == Lookup(two, "chunk_size") == Some(ms[1].1);
    assert Lookup(ms, "name") == Lookup(three, "name") == Lookup(two, "name") == Lookup([ms[0]], "name");
  }

  /**
   * What a standard decoder makes of a printed manifest: nothing if a name or path has a raw control character or a
   * number does not fit its field, and else the manifest with every ill-formed byte of a name or path replaced.
   */
  lemma StandardReads(m: Manifest)
    requires SimpleHashes(m.files)
    ensures StandardManifest(ToJson(m)) ==
      if Legible(m.name) && AllLegible(m.files) && m.chunkSize < TWO_32 && m.seqNo < TWO_64 && SizesFit(m.files)
      then Some(m.(name := Coerce(m.name), files := CoerceFiles(m.files)))
      else None
  {
    hide Value, ToJson, ManifestRecord, ManifestJson, Legible, AllLegible, Coerce, CoerceFiles, SizesFit, SimpleHashes;
    PrintedValue(m);
    ManifestRecordBack(m);
    assert SkipSpace("\n") == SkipSpace("") == "";
  }

  lemma {:induction false} FilesCoerceIff(files: seq<FileEntry>)
    ensures (CoerceFiles(files) == files && AllLegible(files)) <==> forall f :: f in files ==> Portable(f.path)
    ensures SizesFit(files) <==> forall f :: f in files ==> f.size < TWO_64
  {
    if files != [] {
      hide Coerce, Legible, ValidUtf8;
      FilesCoerceIff(files[1..]);
      CoerceIff(files[0].path);
      assert files == [files[0]] + files[1..];
    }
  }

  /** A printed manifest is read back as it is exactly if its numbers fit and its name and paths are portable. */
  lemma StandardManifestIff(m: Manifest)
    requires SimpleHashes(m.files)
    ensures StandardManifest(ToJson(m)) == Some(m) <==>
      NumbersFit(m) && Portable(m.name) && forall f :: f in m.files ==> Portable(f.path)
  {
    hide Coerce, Legible, ValidUtf8, StandardManifest, ToJson, CoerceFiles, AllLegible, SizesFit, SimpleHashes;
    StandardReads(m);
    CoerceIff(m.name);
    FilesCoerceIff(m.files);
  }

  // ----- Manifests older than the number -----

  /** A manifest's text without its `seq` line. */
  function OldText(m: Manifest): string { "{" + OldBody(m) }

  function OldBody(m: Manifest): string {
    "\n" + ("  \"name\": \"" + (Escape(m.name) + ("\",\n" + ("  \"chunk_size\": " + (Decimal(m.chunkSize) + (",\n"
    + ("  \"files\": [" + FilesText(m.files, true, "]\n" + ("}" + "\n")))))))))
  }

  /** Both layers read a manifest written before sequence numbers existed as having the number 0. */
  lemma OldManifestsRead(m: Manifest)
    requires StorableManifest(m) && SimpleHashes(m.files)
    requires Portable(m.name) && forall f :: f in m.files ==> Portable(f.path)
    ensures FromJson(OldText(m)) == Some(m.(seqNo := 0))
    ensures StandardManifest(OldText(m)) == Some(m.(seqNo := 0))
  {
    OldParsed(m);
    OldStandard(m);
  }

  lemma OldParsed(m: Manifest)
    requires StorableManifest(m)
    ensures FromJson(OldText(m)) == Some(m.(seqNo := 0))
  {
    hide Fields, Escape, Decimal, FilesText, Expect;
    var t2 := "  \"files\": [" + FilesText(m.files, true, "]\n" + ("}" + "\n"));
    var t1 := "  \"chunk_size\": " + (Decimal(m.chunkSize) + (",\n" + t2));
    var m1 := EMPTY_MANIFEST.(name := m.name);
    OpenBrace(OldBody(m));
    NameField(m.name, t1, EMPTY_MANIFEST);
    ChunkSizeField(m.chunkSize, t2, m1);
    FilesField(m.files, m1.(chunkSize := m.chunkSize), "\n");
  }

  lemma OldStandard(m: Manifest)
    requires SimpleHashes(m.files) && NumbersFit(m)
    requires Portable(m.name) && forall f :: f in m.files ==> Portable(f.path)
    ensures StandardManifest(OldText(m)) == Some(m.(seqNo := 0))
  {
    hide Legible, AllLegible, Coerce, Simple, SimpleHashes, ValidUtf8, Members, Value, Escape, Decimal, FilesText,
         FileJsons, FileRecords, CoerceFiles, SizesFit, Peek;
    var t2 := "  \"files\": [" + FilesText(m.files, true, "]\n" + ("}" + "\n"));
    var t1 := "  \"chunk_size\": " + (Decimal(m.chunkSize) + (",\n" + t2));
    var name, size := ("name", JString(Coerce(m.name))), ("chunk_size", JNumber(Decimal(m.chunkSize)));
    var files := ("files", JArray(FileJsons(m.files)));
    ManifestLabels();
    KeysAreSimple();
    NewlineIsSpace();
    assert OldText(m) == "" + ("{" + OldBody(m));
    ReadMemberKey("  ", "name", " \"", Escape(m.name) + ("\",\n" + t1));
    ObjectValue("", OldBody(m));
    StringMember("  ", "name", m.name, t1, []);
    NumberMember("  ", "chunk_size", m.chunkSize, t2, [name]);
    FilesMember(m.files, [name, size], "\n");
    ThreeMembers(name, size, files);
    CoerceIff(m.name);
    FilesCoerceIff(m.files);
    DecimalSpells(m.chunkSize);
    FileRecordsBack(m.files);
    OldLookups(name, size, files);
    assert SkipSpace("\n") == SkipSpace("") == "";
  }

  lemma OldLookups(name: (string, Json), size: (string, Json), files: (string, Json))
    requires name.0 == "name" && size.0 == "chunk_size" && files.0 == "files"
    ensures var ms := [name, size, files];
      && Lookup(ms, "name") == Some(name.1) && Lookup(ms, "chunk_size") == Some(size.1)
      && Lookup(ms, "files") == Some(files.1) && Lookup(ms, "seq") == None
  {
    var ms, two := [name, size, files], [name, size];
    assert ms[..2] == two && two[..1] == [name] && [name][..0] == [];
    assert Lookup(ms, "name") == Lookup(two, "name") == Lookup([name], "name");
    assert Lookup(ms, "seq") == Lookup(two, "seq") == Lookup([name], "seq") == Lookup([], "seq");
  }
}
