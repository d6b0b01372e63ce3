/** The byte ranges of well-formed UTF-8, checked against the encoding of each code point. */
module Utf8 {
  import opened StandardStrings

  /** The code points that have an encoding (section 3 of RFC 3629). */
  predicate Scalar(cp: nat) {
    cp < 0x11_0000 && !(0xd800 <= cp < 0xe000)
  }

  function Continuation(x: nat): char {
    (0x80 + x % 64) as char
  }

  function Encode(cp: nat): (s: string)
    requires Scalar(cp)
    ensures 1 <= |s| <= 4
  {
    if cp < 0x80 then [cp as char]
    else if cp < 0x800 then [(0xc0 + cp / 64) as char, Continuation(cp)]
    else if cp < 0x1_0000 then [(0xe0 + cp / 4096) as char, Continuation(cp / 64), Continuation(cp)]
    else [(0xf0 + cp / 0x4_0000) as char, Continuation(cp / 4096), Continuation(cp / 64), Continuation(cp)]
  }

  /** A text that starts with an encoded code point starts with a well-formed sequence of that length. */
  lemma EncodedIsRune(cp: nat, rest: string)
    requires Scalar(cp)
    ensures RuneLength(Encode(cp) + rest) == |Encode(cp)|
  {
    hide *;
    if cp < 0x80 {
      OneByte(cp, rest);
    } else if cp < 0x800 {
      TwoBytes(cp, rest);
    } else if cp < 0x1_0000 {
      ThreeBytes(cp, rest, cp / 4096, cp / 64 % 64);
    } else {
      FourBytes(cp, rest, cp / 0x4_0000, cp / 4096 % 64);
    }
  }

  lemma OneByte(cp: nat, rest: string)
    requires Scalar(cp) && cp < 0x80
    ensures RuneLength(Encode(cp) + rest) == |Encode(cp)|
  {
  }

  lemma TwoBytes(cp: nat, rest: string)
    requires Scalar(cp) && 0x80 <= cp < 0x800
    ensures RuneLength(Encode(cp) + rest) == |Encode(cp)|
  {
    var t := Encode(cp) + rest;
    assert t[1..] == Encode(cp)[1..] + rest;
    TailFollows(t[1..], 1);
  }

  lemma ThreeBytes(cp: nat, rest: string, a: nat, b: nat)
    requires Scalar(cp) && 0x800 <= cp < 0x1_0000 && a == cp / 4096 && b == cp / 64 % 64
    ensures RuneLength(Encode(cp) + rest) == |Encode(cp)|
  {
    hide Follows;
    var t := Encode(cp) + rest;
    assert t[1..] == Encode(cp)[1..] + rest;
    assert cp / 64 == 64 * a + b;
    assert a < 16 && (a == 0 ==> b >= 0x20) && (a == 13 ==> b < 0x20);
    assert t[0] as int == 0xe0 + a && t[1..][0] as int == 0x80 + b;
    TailFollows(t[1..], 2);
  }

  lemma FourBytes(cp: nat, rest: string, a: nat, b: nat)
    requires Scalar(cp) && 0x1_0000 <= cp && a == cp / 0x4_0000 && b == cp / 4096 % 64
    ensures RuneLength(Encode(cp) + rest) == |Encode(cp)|
  {
    hide Follows;
    var t := Encode(cp) + rest;
    assert t[1..] == Encode(cp)[1..] + rest;
    assert cp / 4096 == 64 * a + b;
    assert a < 5 && (a == 0 ==> b >= 0x10) && (a == 4 ==> b < 0x10);
    assert t[0] as int == 0xf0 + a && t[1..][0] as int == 0x80 + b;
    TailFollows(t[1..], 3);
  }

  lemma TailFollows(t: string, n: nat)
    requires 1 <= n <= 3 && |t| >= n && forall i :: 0 <= i < n ==> 0x80 <= t[i] as int <= 0xbf
    ensures forall lo, hi :: lo <= t[0] as int <= hi ==> Follows(t, lo, hi, n)
  {
    if n > 1 { TailFollows(t[1..], n - 1); }
  }

  /** The bytes of a well-formed sequence, by its length. */
  lemma RuneBytes(t: string)
    requires t != "" && RuneLength(t) > 0
    ensures RuneLength(t) <= |t| && RuneLength(t) <= 4
    ensures RuneLength(t) == 1 ==> t[0] as int < 0x80
    ensures forall i :: 1 <= i < RuneLength(t) ==> 0x80 <= t[i] as int <= 0xbf
    ensures RuneLength(t) == 2 ==> 0xc2 <= t[0] as int <= 0xdf
    ensures RuneLength(t) == 3 ==>
      && 0xe0 <= t[0] as int <= 0xef
      && (t[0] as int == 0xe0 ==> t[1] as int >= 0xa0) && (t[0] as int == 0xed ==> t[1] as int <= 0x9f)
    ensures RuneLength(t) == 4 ==>
      && 0xf0 <= t[0] as int <= 0xf4
      && (t[0] as int == 0xf0 ==> t[1] as int >= 0x90) && (t[0] as int == 0xf4 ==> t[1] as int <= 0x8f)
  {
    RuneFits(t);
    var k, rest := RuneLength(t), t[1..];
    if k > 1 {
      var lo, hi :| lo >= 0x80 && hi <= 0xbf && Follows(rest, lo, hi, k - 1);
      FollowBytes(rest, lo, hi, k - 1);
      assert forall i :: 1 <= i < k ==> t[i] == rest[i - 1];
    }
  }

  lemma {:induction false} FollowBytes(t: string, lo: int, hi: int, n: nat)
    requires Follows(t, lo, hi, n) && lo >= 0x80 && hi <= 0xbf
    ensures |t| >= n && forall i :: 0 <= i < n ==> 0x80 <= t[i] as int <= 0xbf
    decreases n
  {
    if n > 0 {
      FollowBytes(t[1..], 0x80, 0xbf, n - 1);
      assert forall i :: 1 <= i < n ==> t[i] == t[1..][i - 1];
    }
  }

  /** Every well-formed sequence encodes a code point: the bits under its headers, put together. */
  lemma RuneIsEncoded(t: string) returns (cp: nat)
    requires t != "" && RuneLength(t) > 0
    ensures RuneLength(t) <= |t| && Scalar(cp) && t[..RuneLength(t)] == Encode(cp)
  {
    hide *;
    RuneBytes(t);
    var k := RuneLength(t);
    if k == 1 {
      cp := Joined1(t);
    } else if k == 2 {
      cp := Joined2(t, t[0] as int - 0xc0, t[1] as int - 0x80);
    } else if k == 3 {
      cp := Joined3(t, t[0] as int - 0xe0, t[1] as int - 0x80, t[2] as int - 0x80);
    } else {
      cp := Joined4(t, t[0] as int - 0xf0, t[1] as int - 0x80, t[2] as int - 0x80, t[3] as int - 0x80);
    }
  }

  lemma Joined1(t: string) returns (cp: nat)
    requires |t| >= 1 && t[0] as int < 0x80
    ensures Scalar(cp) && t[..1] == Encode(cp)
  {
    cp := t[0] as int;
  }

  lemma Joined2(t: string, a: nat, b: nat) returns (cp: nat)
    requires |t| >= 2 && 2 <= a < 32 && b < 64
    requires t[0] as int == 0xc0 + a && t[1] as int == 0x80 + b
    ensures Scalar(cp) && t[..2] == Encode(cp)
  {
    cp := a * 64 + b;
    assert cp / 64 == a && cp % 64 == b;
  }

  lemma Joined3(t: string, a: nat, b: nat, c: nat) returns (cp: nat)
    requires |t| >= 3 && a < 16 && b < 64 && c < 64 && (a == 0 ==> b >= 0x20) && (a == 13 ==> b < 0x20)
    requires t[0] as int == 0xe0 + a && t[1] as int == 0x80 + b && t[2] as int == 0x80 + c
    ensures Scalar(cp) && t[..3] == Encode(cp)
  {
    cp := a * 4096 + b * 64 + c;
    assert cp / 4096 == a && cp / 64 == a * 64 + b && cp % 64 == c;
    assert (a * 64 + b) % 64 == b;
  }

  lemma Joined4(t: string, a: nat, b: nat, c: nat, d: nat) returns (cp: nat)
    requires |t| >= 4 && a < 5 && b < 64 && c < 64 && d < 64 && (a == 0 ==> b >= 0x10) && (a == 4 ==> b < 0x10)
    requires t[0] as int == 0xf0 + a && t[1] as int == 0x80 + b && t[2] as int == 0x80 + c && t[3] as int == 0x80 + d
    ensures Scalar(cp) && t[..4] == Encode(cp)
  {
    cp := a * 0x4_0000 + b * 4096 + c * 64 + d;
    assert cp / 0x4_0000 == a && cp / 4096 == a * 64 + b && cp / 64 == a * 4096 + b * 64 + c && cp % 64 == d;
    assert (a * 64 + b) % 64 == b && (a * 4096 + b * 64 + c) % 64 == c;
  }

  lemma {:induction false} ValidIsEncoded(s: string) returns (cps: seq<nat>)
    requires ValidUtf8(s)
    ensures AllScalar(cps) && s == EncodeAll(cps)
    decreases |s|
  {
    if s == "" {
      cps := [];
    } else {
      var k := RuneLength(s);
      var cp := RuneIsEncoded(s);
      var rest := ValidIsEncoded(s[k..]);
      cps := [cp] + rest;
      assert s == s[..k] + s[k..];
    }
  }

  predicate AllScalar(cps: seq<nat>) {
    forall i :: 0 <= i < |cps| ==> Scalar(cps[i])
  }

  function EncodeAll(cps: seq<nat>): string
    requires AllScalar(cps)
  {
    if cps == [] then "" else Encode(cps[0]) + EncodeAll(cps[1..])
  }

  lemma {:induction false} EncodedIsValid(cps: seq<nat>)
    requires AllScalar(cps)
    ensures ValidUtf8(EncodeAll(cps))
    decreases |cps|
  {
    if cps != [] {
      EncodedIsValid(cps[1..]);
      OneMoreRune(cps[0], EncodeAll(cps[1..]));
    }
  }

  /** A text is well-formed exactly if it is the encoding of a sequence of code points. */
  lemma ValidIffEncoded(s: string)
    ensures ValidUtf8(s) <==> exists cps :: AllScalar(cps) && s == EncodeAll(cps)
  {
    hide *;
    if ValidUtf8(s) {
      var cps := ValidIsEncoded(s);
    }
    forall cps | AllScalar(cps) && s == EncodeAll(cps) ensures ValidUtf8(s) {
      EncodedIsValid(cps);
    }
  }

  /** What replacement leaves is well-formed, and what it puts in is U+FFFD. */
  lemma {:induction false} CoerceIsValid(s: string)
    ensures ValidUtf8(Coerce(s)) && REPLACEMENT == Encode(0xfffd)
    decreases |s|
  {
    if s != "" {
      hide Encode, RuneLength;
      RuneFits(s);
      var k := RuneLength(s);
      if k > 0 {
        var cp := RuneIsEncoded(s);
        CoerceIsValid(s[k..]);
        OneMoreRune(cp, Coerce(s[k..]));
      } else {
        CoerceIsValid(s[1..]);
        OneMoreRune(0xfffd, Coerce(s[1..]));
      }
    }
  }

  lemma OneMoreRune(cp: nat, rest: string)
    requires Scalar(cp) && ValidUtf8(rest)
    ensures ValidUtf8(Encode(cp) + rest)
  {
    hide Encode, RuneLength;
    EncodedIsRune(cp, rest);
    assert (Encode(cp) + rest)[|Encode(cp)|..] == rest;
  }
}
