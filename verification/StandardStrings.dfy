/** How a standard JSON decoder reads the strings the printer writes. */
module StandardStrings {
  import opened Common
  import opened Manifests
  import opened ManifestText

  // ----- UTF-8, byte by byte: a char here is one byte of the text -----

  /** The first `n` bytes are continuation bytes, the first of them between `lo` and `hi`. */
  predicate Follows(t: string, lo: int, hi: int, n: nat) {
    n == 0 || (t != "" && lo <= t[0] as int <= hi && Follows(t[1..], 0x80, 0xbf, n - 1))
  }

  /** The length of the well-formed sequence at the start of a text, or 0 if there is none. */
  function RuneLength(t: string): nat
    requires t != ""
  {
    var c, rest := t[0] as int, t[1..];
    if c < 0x80 then 1
    else if 0xc2 <= c <= 0xdf && Follows(rest, 0x80, 0xbf, 1) then 2
    else if c == 0xe0 && Follows(rest, 0xa0, 0xbf, 2) then 3
    else if (0xe1 <= c <= 0xec || 0xee <= c <= 0xef) && Follows(rest, 0x80, 0xbf, 2) then 3
    else if c == 0xed && Follows(rest, 0x80, 0x9f, 2) then 3
    else if c == 0xf0 && Follows(rest, 0x90, 0xbf, 3) then 4
    else if 0xf1 <= c <= 0xf3 && Follows(rest, 0x80, 0xbf, 3) then 4
    else if c == 0xf4 && Follows(rest, 0x80, 0x8f, 3) then 4
    else 0
  }

  lemma {:induction false} FollowsLength(t: string, lo: int, hi: int, n: nat)
    requires Follows(t, lo, hi, n)
    ensures |t| >= n
  {
    if n > 0 { FollowsLength(t[1..], 0x80, 0xbf, n - 1); }
  }

  lemma RuneFits(t: string)
    requires t != ""
    ensures RuneLength(t) <= |t|
  {
    var rest, k := t[1..], RuneLength(t);
    if k > 1 {
      var lo, hi :| Follows(rest, lo, hi, k - 1);
      FollowsLength(rest, lo, hi, k - 1);
    }
  }

  predicate ValidUtf8(s: string)
    decreases |s|
  {
    s == "" || (RuneFits(s); RuneLength(s) > 0 && ValidUtf8(s[RuneLength(s)..]))
  }

  /** U+FFFD, which takes the place of every byte that is not part of a well-formed sequence. */
  const REPLACEMENT: string := [0xef as char, 0xbf as char, 0xbd as char]

  function Coerce(s: string): string
    decreases |s|
  {
    if s == "" then ""
    else
      RuneFits(s);
      var k := RuneLength(s);
      if k > 0 then s[..k] + Coerce(s[k..]) else REPLACEMENT + Coerce(s[1..])
  }

  /** Replacement lengthens a text, so exactly the well-formed texts are left as they are. */
  lemma {:induction false} CoerceIff(s: string)
    ensures |Coerce(s)| >= |s| && (|Coerce(s)| == |s| ==> ValidUtf8(s))
    ensures Coerce(s) == s <==> ValidUtf8(s)
    decreases |s|
  {
    if s != "" {
      RuneFits(s);
      var k := RuneLength(s);
      if k > 0 {
        CoerceIff(s[k..]);
        assert s == s[..k] + s[k..];
      } else {
        CoerceIff(s[1..]);
      }
    }
  }

  // ----- Reading -----

  /**
   * A string's characters up to its closing quote (RFC 8259, section 7): control characters must be escaped, only the
   * standard escapes are allowed, and bytes that are not UTF-8 are replaced. Unicode escapes, which the printer never
   * writes, are not read.
   */
  function StandardBody(t: string): (p: Parsed<string>)
    ensures p.Got? ==> |p.rest| < |t|
    decreases |t|
  {
    if t == "" || t[0] < ' ' then Fail
    else if t[0] == '"' then Got("", t[1..])
    else if t[0] == '\\' then
      if |t| == 1 || Unescape(t[1]).None? then Fail
      else Prepend([Unescape(t[1]).value], StandardBody(t[2..]))
    else
      RuneFits(t);
      var k := RuneLength(t);
      if k > 0 then Prepend(t[..k], StandardBody(t[k..])) else Prepend(REPLACEMENT, StandardBody(t[1..]))
  }

  function Unescape(c: char): Option<char> {
    match c
    case '"' => Some('"')
    case '\\' => Some('\\')
    case '/' => Some('/')
    case 'b' => Some(8 as char)
    case 'f' => Some(12 as char)
    case 'n' => Some('\n')
    case 'r' => Some('\r')
    case 't' => Some('\t')
    case _ => None
  }

  function Prepend(s: string, p: Parsed<string>): Parsed<string> {
    if p.Got? then Got(s + p.value, p.rest) else Fail
  }

  // ----- Reading what the printer escaped -----

  /** The printer leaves no control character raw. */
  predicate Legible(s: string) {
    forall i :: 0 <= i < |s| ==> s[i] >= ' ' || s[i] == '\n' || s[i] == '\r' || s[i] == '\t'
  }

  /** What a name or path must be to reach the other layer unchanged. */
  predicate Portable(s: string) {
    Legible(s) && ValidUtf8(s)
  }

  /** Escaped text followed by its closing quote. */
  function Quoted(s: string, tail: string): string {
    Escape(s) + "\"" + tail
  }

  lemma QuotedStep(s: string, tail: string)
    requires s != ""
    ensures Quoted(s, tail) == EscapeChar(s[0]) + Quoted(s[1..], tail)
  {
  }

  /** Escaping neither makes nor breaks a run of continuation bytes. */
  lemma {:induction false} FollowsQuoted(s: string, tail: string, lo: int, hi: int, n: nat)
    requires lo >= 0x80
    ensures Follows(Quoted(s, tail), lo, hi, n) <==> Follows(s, lo, hi, n)
    decreases n
  {
    if n > 0 {
      if s != "" {
        QuotedStep(s, tail);
        if s[0] as int >= 0x80 {
          assert Quoted(s, tail)[1..] == Quoted(s[1..], tail);
          FollowsQuoted(s[1..], tail, 0x80, 0xbf, n - 1);
        }
      }
    }
  }

  lemma RuneQuoted(s: string, tail: string)
    requires s != "" && s[0] as int >= 0x80
    ensures Quoted(s, tail) == [s[0]] + Quoted(s[1..], tail)
    ensures RuneLength(Quoted(s, tail)) == RuneLength(s)
  {
    hide Follows, Quoted;
    QuotedStep(s, tail);
    var q := s[1..];
    assert Quoted(s, tail)[1..] == Quoted(q, tail);
    FollowsQuoted(q, tail, 0x80, 0xbf, 1);
    FollowsQuoted(q, tail, 0xa0, 0xbf, 2);
    FollowsQuoted(q, tail, 0x80, 0xbf, 2);
    FollowsQuoted(q, tail, 0x80, 0x9f, 2);
    FollowsQuoted(q, tail, 0x90, 0xbf, 3);
    FollowsQuoted(q, tail, 0x80, 0xbf, 3);
    FollowsQuoted(q, tail, 0x80, 0x8f, 3);
  }

  /** A multi-byte sequence passes through the printer as it is. */
  lemma {:induction false} HighBytes(s: string, tail: string, lo: int, hi: int, n: nat)
    requires lo >= 0x80 && Follows(s, lo, hi, n) && |s| >= n
    ensures Quoted(s, tail) == s[..n] + Quoted(s[n..], tail)
    ensures Legible(s) <==> Legible(s[n..])
    decreases n
  {
    hide *;
    if n == 0 {
      assert s[..0] == "" && s[0..] == s;
    } else {
      HighByte(s, tail, lo, hi, n);
      HighBytes(s[1..], tail, 0x80, 0xbf, n - 1);
      HighLegible(s);
      assert s[1..][n - 1..] == s[n..] && s[..n] == [s[0]] + s[1..][..n - 1];
    }
  }

  lemma HighByte(s: string, tail: string, lo: int, hi: int, n: nat)
    requires lo >= 0x80 && n > 0 && Follows(s, lo, hi, n)
    ensures s != "" && s[0] as int >= 0x80 && Follows(s[1..], 0x80, 0xbf, n - 1)
    ensures Quoted(s, tail) == [s[0]] + Quoted(s[1..], tail)
  {
    QuotedStep(s, tail);
  }

  lemma LegibleStep(s: string)
    requires s != ""
    ensures Legible(s) <==> (s[0] >= ' ' || s[0] == '\n' || s[0] == '\r' || s[0] == '\t') && Legible(s[1..])
  {
    assert s == [s[0]] + s[1..];
  }

  lemma RunePasses(s: string, tail: string)
    requires s != "" && s[0] as int >= 0x80 && RuneLength(s) > 0
    ensures var k := RuneLength(s);
            && k <= |s| && Quoted(s, tail) == s[..k] + Quoted(s[k..], tail)
            && (Legible(s) <==> Legible(s[k..]))
  {
    hide *;
    RuneFits(s);
    RuneQuoted(s, tail);
    var k := RuneLength(s);
    var lo, hi := RuneFollow(s);
    HighBytes(s[1..], tail, lo, hi, k - 1);
    HighLegible(s);
    assert s[1..][k - 1..] == s[k..] && s[..k] == [s[0]] + s[1..][..k - 1];
  }

  lemma RuneFollow(s: string) returns (lo: int, hi: int)
    requires s != "" && s[0] as int >= 0x80 && RuneLength(s) > 0
    ensures RuneLength(s) > 1 && lo >= 0x80 && Follows(s[1..], lo, hi, RuneLength(s) - 1)
  {
    lo, hi :| lo >= 0x80 && Follows(s[1..], lo, hi, RuneLength(s) - 1);
  }

  lemma HighLegible(s: string)
    requires s != "" && s[0] as int >= 0x80
    ensures Legible(s) <==> Legible(s[1..])
  {
    LegibleStep(s);
  }

  /** A printed string is rejected if it holds a raw control character, and otherwise read with replacements. */
  lemma {:induction false} ReadQuoted(s: string, tail: string)
    ensures StandardBody(Quoted(s, tail)) == if Legible(s) then Got(Coerce(s), tail) else Fail
    decreases |s|
  {
    if s == "" {
      assert Quoted(s, tail) == "\"" + tail;
    } else if s[0] as int < 0x80 {
      ReadQuoted(s[1..], tail);
      ReadAscii(s, tail);
    } else if RuneLength(s) == 0 {
      ReadQuoted(s[1..], tail);
      ReadBroken(s, tail);
    } else {
      RuneFits(s);
      ReadQuoted(s[RuneLength(s)..], tail);
      ReadRune(s, tail);
    }
  }

  lemma ReadAscii(s: string, tail: string)
    requires s != "" && s[0] as int < 0x80
    requires StandardBody(Quoted(s[1..], tail)) == if Legible(s[1..]) then Got(Coerce(s[1..]), tail) else Fail
    ensures StandardBody(Quoted(s, tail)) == if Legible(s) then Got(Coerce(s), tail) else Fail
  {
    hide *;
    LegibleStep(s);
    QuotedStep(s, tail);
    AsciiCoerce(s);
    AsciiBody(s[0], Quoted(s[1..], tail));
  }

  lemma AsciiCoerce(s: string)
    requires s != "" && s[0] as int < 0x80
    ensures Coerce(s) == [s[0]] + Coerce(s[1..])
  {
    assert RuneLength(s) == 1 && s[..1] == [s[0]];
  }

  lemma AsciiBody(c: char, rest: string)
    requires c as int < 0x80
    ensures StandardBody(EscapeChar(c) + rest) ==
      if c >= ' ' || c == '\n' || c == '\r' || c == '\t' then Prepend([c], StandardBody(rest)) else Fail
    ensures forall v, r :: Prepend([c], Got(v, r)) == Got([c] + v, r)
    ensures Prepend([c], Fail) == Fail
  {
    var t := EscapeChar(c) + rest;
    if |EscapeChar(c)| == 2 {
      assert t[2..] == rest && t[0] == '\\' && Unescape(t[1]) == Some(c);
    } else {
      assert t[1..] == rest && t[0] == c && t[..1] == [c];
      assert RuneLength(t) == 1;
    }
  }

  lemma ReadBroken(s: string, tail: string)
    requires s != "" && s[0] as int >= 0x80 && RuneLength(s) == 0
    requires StandardBody(Quoted(s[1..], tail)) == if Legible(s[1..]) then Got(Coerce(s[1..]), tail) else Fail
    ensures StandardBody(Quoted(s, tail)) == if Legible(s) then Got(Coerce(s), tail) else Fail
  {
    hide Quoted, Legible, RuneLength;
    RuneQuoted(s, tail);
    LegibleStep(s);
    assert Quoted(s, tail)[1..] == Quoted(s[1..], tail);
  }

  lemma ReadRune(s: string, tail: string)
    requires s != "" && s[0] as int >= 0x80 && 0 < RuneLength(s) <= |s|
    requires var q := s[RuneLength(s)..];
             StandardBody(Quoted(q, tail)) == if Legible(q) then Got(Coerce(q), tail) else Fail
    ensures StandardBody(Quoted(s, tail)) == if Legible(s) then Got(Coerce(s), tail) else Fail
  {
    hide Quoted, Legible, RuneLength;
    var k := RuneLength(s);
    RuneQuoted(s, tail);
    RunePasses(s, tail);
    assert Quoted(s, tail)[..k] == s[..k] && Quoted(s, tail)[k..] == Quoted(s[k..], tail);
  }

  /** A name or path is read back as it is exactly if it is portable. */
  lemma ReadBackIff(s: string, tail: string)
    ensures StandardBody(Quoted(s, tail)) == Got(s, tail) <==> Portable(s)
  {
    ReadQuoted(s, tail);
    CoerceIff(s);
  }

  /** The printer's output is free of raw control characters exactly if what it printed is legible. */
  lemma {:induction false} EscapedControlIff(s: string)
    ensures (forall i :: 0 <= i < |Escape(s)| ==> Escape(s)[i] >= ' ') <==> Legible(s)
  {
    if s != "" {
      EscapedControlIff(s[1..]);
      LegibleStep(s);
      assert Escape(s) == EscapeChar(s[0]) + Escape(s[1..]);
      assert Escape(s)[0] == EscapeChar(s[0])[0];
      assert forall i :: 0 <= i < |Escape(s[1..])| ==> Escape(s)[|EscapeChar(s[0])| + i] == Escape(s[1..])[i];
    }
  }

  /** The file name of the single byte 1 prints to a text no standard decoder accepts. */
  lemma ControlNameRejected(tail: string)
    ensures StandardBody(Quoted([1 as char], tail)).Fail?
  {
    ReadQuoted([1 as char], tail);
    assert ([1 as char])[0] < ' ';
  }

  /** The file name of the single byte 0xff is read as another name. */
  lemma BrokenNameRewritten(tail: string)
    ensures StandardBody(Quoted([0xff as char], tail)) == Got(REPLACEMENT, tail)
  {
    var s := [0xff as char];
    ReadQuoted(s, tail);
    assert RuneLength(s) == 0 && Coerce(s) == REPLACEMENT + Coerce("") == REPLACEMENT;
  }

  // ----- What manifests hold -----

  /** The unsigned fields of 32 and 64 bits hold their numbers. */
  predicate NumbersFit(m: Manifest) {
    m.chunkSize < TWO_32 && m.seqNo < TWO_64 && forall f :: f in m.files ==> f.size < TWO_64
  }

  /** Printable ASCII without quote or backslash, as every hexadecimal hash is. */
  predicate Simple(h: Hash) {
    forall i :: 0 <= i < |h| ==> ' ' <= h[i] < 127 as char && h[i] != '"' && h[i] != '\\'
  }

  lemma {:induction false} SimpleIsItself(h: Hash)
    requires Simple(h)
    ensures Escape(h) == h && Portable(h)
  {
    if h == "" {
    } else {
      SimpleIsItself(h[1..]);
      assert h == [h[0]] + h[1..];
      assert RuneLength(h) == 1;
    }
  }
}
