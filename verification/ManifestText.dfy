/** The manifest's text form: what the printer writes and what the parser makes of a text. */
module ManifestText {
  import opened Common
  import opened Manifests

  // ----- Printer -----

  function EscapeChar(c: char): string {
    match c
    case '"' => "\\\""
    case '\\' => "\\\\"
    case '\n' => "\\n"
    case '\r' => "\\r"
    case '\t' => "\\t"
    case _ => [c]
  }

  function Escape(s: string): string {
    if s == "" then "" else EscapeChar(s[0]) + Escape(s[1..])
  }

  function DigitChar(d: nat): char
    requires d < 10
  {
    '0' + d as char
  }

  function Decimal(n: nat): string {
    if n < 10 then [DigitChar(n)] else Decimal(n / 10) + [DigitChar(n % 10)]
  }

  /** The quoted chunk hashes, comma-separated, followed by `tail`. Hashes are written unescaped. */
  function ChunksText(chunks: seq<Hash>, first: bool, tail: string): string {
    if chunks == [] then tail
    else (if first then "" else ", ") + ("\"" + (chunks[0] + ("\"" + ChunksText(chunks[1..], false, tail))))
  }

  function FileText(f: FileEntry, tail: string): string {
    "    {\n" + ("      \"path\": \"" + (Escape(f.path) + ("\",\n" + ("      \"size\": " + (Decimal(f.size) + (",\n"
    + ("      \"chunks\": [" + ChunksText(f.chunks, true, "]\n" + ("    }" + tail)))))))))
  }

  function FilesText(files: seq<FileEntry>, first: bool, tail: string): string {
    if files == [] then (if first then "" else "\n  ") + tail
    else (if first then "\n" else ",\n") + FileText(files[0], FilesText(files[1..], false, tail))
  }

  function ToJson(m: Manifest): string {
    "{\n" + ("  \"name\": \"" + (Escape(m.name) + ("\",\n" + ("  \"chunk_size\": " + (Decimal(m.chunkSize) + (",\n"
    + ("  \"seq\": " + (Decimal(m.seqNo) + (",\n" + ("  \"files\": [" +
        FilesText(m.files, true, "]\n" + "}\n")))))))))))
  }

  // ----- Parser: each function consumes a text and gives a value and the text left -----

  datatype Parsed<T> = Fail | Got(value: T, rest: string)

  predicate IsSpace(c: char) { c == ' ' || c == '\n' || c == '\r' || c == '\t' }

  predicate IsDigit(c: char) { '0' <= c <= '9' }

  function SkipSpace(t: string): (r: string)
    ensures |r| <= |t|
  {
    if t != "" && IsSpace(t[0]) then SkipSpace(t[1..]) else t
  }

  function Expect(t: string, c: char): (p: Parsed<()>)
    ensures p.Got? ==> |p.rest| < |t|
  {
    var r := SkipSpace(t);
    if r != "" && r[0] == c then Got((), r[1..]) else Fail
  }

  /** The next character that is not white space, left in place. */
  function Peek(t: string): (p: Parsed<char>)
    ensures p.Got? ==> p.rest != "" && |p.rest| <= |t|
  {
    var r := SkipSpace(t);
    if r == "" then Fail else Got(r[0], r)
  }

  function Unescape(e: char): char {
    match e
    case 'n' => '\n'
    case 'r' => '\r'
    case 't' => '\t'
    case _ => e
  }

  function StringBody(t: string, acc: string): (p: Parsed<string>)
    ensures p.Got? ==> |p.rest| < |t|
    decreases |t|
  {
    if t == "" then Fail
    else if t[0] == '"' then Got(acc, t[1..])
    else if t[0] == '\\' then
      if |t| < 2 then Fail else StringBody(t[2..], acc + [Unescape(t[1])])
    else StringBody(t[1..], acc + [t[0]])
  }

  function ParseString(t: string): (p: Parsed<string>)
    ensures p.Got? ==> |p.rest| < |t|
  {
    match Expect(t, '"')
    case Fail => Fail
    case Got(_, r) => StringBody(r, "")
  }

  function DigitValue(c: char): nat
    requires IsDigit(c)
  {
    (c - '0') as nat
  }

  /** Reads digits, wrapping at 64 bits; fails unless at least one was seen. */
  function Digits(t: string, v: nat, any: bool): (p: Parsed<nat>)
    ensures p.Got? ==> |p.rest| <= |t|
    decreases |t|
  {
    if t != "" && IsDigit(t[0]) then Digits(t[1..], Wrap64(v * 10 + DigitValue(t[0])), true)
    else if any then Got(v, t)
    else Fail
  }

  function ParseUint(t: string): (p: Parsed<nat>)
    ensures p.Got? ==> |p.rest| <= |t|
  {
    Digits(SkipSpace(t), 0, false)
  }

  /** Strings up to the closing bracket. */
  function Strings(t: string, acc: seq<string>): (p: Parsed<seq<string>>)
    ensures p.Got? ==> |p.rest| < |t|
    decreases |t|
  {
    match ParseString(t)
    case Fail => Fail
    case Got(x, r) =>
      match Peek(r)
      case Fail => Fail
      case Got(c, r') =>
        if c == ',' then Strings(r'[1..], acc + [x])
        else if c == ']' then Got(acc + [x], r'[1..])
        else Fail
  }

  function ParseStrings(t: string): (p: Parsed<seq<string>>)
    ensures p.Got? ==> |p.rest| < |t|
  {
    match Expect(t, '[')
    case Fail => Fail
    case Got(_, r) =>
      match Peek(r)
      case Fail => Fail
      case Got(c, r') => if c == ']' then Got([], r'[1..]) else Strings(r', [])
  }

  /** The value of one file key, put into the entry being read. */
  function FileField(key: string, t: string, fe: FileEntry): (p: Parsed<FileEntry>)
    ensures p.Got? ==> |p.rest| <= |t|
  {
    if key == "path" then
      match ParseString(t) case Fail => Fail case Got(x, r) => Got(fe.(path := x), r)
    else if key == "size" then
      match ParseUint(t) case Fail => Fail case Got(x, r) => Got(fe.(size := x), r)
    else if key == "chunks" then
      match ParseStrings(t) case Fail => Fail case Got(x, r) => Got(fe.(chunks := x), r)
    else Fail
  }

  function FileFields(t: string, fe: FileEntry): (p: Parsed<FileEntry>)
    ensures p.Got? ==> |p.rest| < |t|
    decreases |t|
  {
    match ParseString(t)
    case Fail => Fail
    case Got(key, r0) =>
      match Expect(r0, ':')
      case Fail => Fail
      case Got(_, r1) =>
        match FileField(key, r1, fe)
        case Fail => Fail
        case Got(fe', r2) =>
          match Peek(r2)
          case Fail => Fail
          case Got(c, r3) =>
            if c == ',' then FileFields(r3[1..], fe')
            else if c == '}' then Got(fe', r3[1..])
            else Fail
  }

  /** File objects up to the closing bracket, appended to those already read. */
  function Files(t: string, acc: seq<FileEntry>): (p: Parsed<seq<FileEntry>>)
    ensures p.Got? ==> |p.rest| < |t|
    decreases |t|
  {
    match Expect(t, '{')
    case Fail => Fail
    case Got(_, r0) =>
      match FileFields(r0, FileEntry("", 0, []))
      case Fail => Fail
      case Got(fe, r1) =>
        match Peek(r1)
        case Fail => Fail
        case Got(c, r2) =>
          if c == ',' then Files(r2[1..], acc + [fe])
          else if c == ']' then Got(acc + [fe], r2[1..])
          else Fail
  }

  function ParseFiles(t: string, acc: seq<FileEntry>): (p: Parsed<seq<FileEntry>>)
    ensures p.Got? ==> |p.rest| < |t|
  {
    match Expect(t, '[')
    case Fail => Fail
    case Got(_, r) =>
      match Peek(r)
      case Fail => Fail
      case Got(c, r') => if c == ']' then Got(acc, r'[1..]) else Files(r', acc)
  }

  function Field(key: string, t: string, m: Manifest): (p: Parsed<Manifest>)
    ensures p.Got? ==> |p.rest| <= |t|
  {
    if key == "name" then
      match ParseString(t) case Fail => Fail case Got(x, r) => Got(m.(name := x), r)
    else if key == "chunk_size" then
      match ParseUint(t) case Fail => Fail case Got(x, r) => Got(m.(chunkSize := Cut32(x)), r)
    else if key == "seq" then
      match ParseUint(t) case Fail => Fail case Got(x, r) => Got(m.(seqNo := x), r)
    else if key == "files" then
      match ParseFiles(t, m.files) case Fail => Fail case Got(x, r) => Got(m.(files := x), r)
    else Fail
  }

  function Fields(t: string, m: Manifest): (p: Parsed<Manifest>)
    ensures p.Got? ==> |p.rest| < |t|
    decreases |t|
  {
    match ParseString(t)
    case Fail => Fail
    case Got(key, r0) =>
      match Expect(r0, ':')
      case Fail => Fail
      case Got(_, r1) =>
        match Field(key, r1, m)
        case Fail => Fail
        case Got(m', r2) =>
          match Peek(r2)
          case Fail => Fail
          case Got(c, r3) =>
            if c == ',' then Fields(r3[1..], m')
            else if c == '}' then Got(m', r3[1..])
            else Fail
  }

  const EMPTY_MANIFEST := Manifest("", 0, 0, [])

  /** Whatever follows the closing brace is ignored. */
  function FromJson(text: string): Option<Manifest> {
    match Expect(text, '{')
    case Fail => None
    case Got(_, r) =>
      match Fields(r, EMPTY_MANIFEST)
      case Fail => None
      case Got(m, _) => Some(m)
  }
}
