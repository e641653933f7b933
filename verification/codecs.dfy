/** The byte-to-text decoders the scanners call: `bytes.decode` with the
    codecs 'utf-16le', 'utf-16be', 'utf-8' and 'ascii', strict (a failure is
    None) or with `errors='ignore'` (undecodable bytes are dropped). */
module Codecs {
  import opened Common

  /** The 16-bit code unit at byte offset `i`. */
  function Unit(b: seq<Byte>, i: nat, bigEndian: bool): (u: nat)
    requires i + 2 <= |b|
    ensures u < 0x1_0000
  {
    if bigEndian then 0x100 * (b[i] as int) + b[i + 1] as int
    else b[i] as int + 0x100 * (b[i + 1] as int)
  }

  predicate IsHighSurrogate(u: nat) { 0xD800 <= u < 0xDC00 }

  predicate IsLowSurrogate(u: nat) { 0xDC00 <= u < 0xE000 }

  /** Strict UTF-16 decoding of `b[i..]`. Fails on an odd byte count
      ("truncated data") and on an unpaired surrogate. */
  function DecodeUtf16From(b: seq<Byte>, i: nat, bigEndian: bool): (r: Option<string>)
    requires i <= |b|
    ensures r.Some? ==> (|b| - i) % 2 == 0 && |r.value| <= (|b| - i) / 2
    decreases |b| - i
  {
    if i == |b| then Some([])
    else if i + 2 > |b| then None
    else
      var u := Unit(b, i, bigEndian);
      if !IsHighSurrogate(u) && !IsLowSurrogate(u) then
        match DecodeUtf16From(b, i + 2, bigEndian)
        case None => None
        case Some(rest) => Some([u as char] + rest)
      else if IsHighSurrogate(u) && i + 4 <= |b| && IsLowSurrogate(Unit(b, i + 2, bigEndian)) then
        var cp := 0x1_0000 + (u - 0xD800) * 0x400 + (Unit(b, i + 2, bigEndian) - 0xDC00);
        match DecodeUtf16From(b, i + 4, bigEndian)
        case None => None
        case Some(rest) => Some([cp as char] + rest)
      else None
  }

  function DecodeUtf16(b: seq<Byte>, bigEndian: bool): Option<string>
  {
    DecodeUtf16From(b, 0, bigEndian)
  }

  /** A UTF-16 encoding of plain ASCII text decodes back to that text. */
  lemma {:induction false} Utf16AsciiRoundTrip(s: string, b: seq<Byte>)
    requires |b| == 2 * |s|
    requires forall k :: 0 <= k < |s| ==> s[k] as int < 128 && b[2 * k] == s[k] as int && b[2 * k + 1] == 0
    ensures DecodeUtf16(b, false) == Some(s)
  {
    Utf16AsciiFrom(s, b, 0);
  }

  lemma {:induction false} Utf16AsciiFrom(s: string, b: seq<Byte>, k: nat)
    requires |b| == 2 * |s| && k <= |s|
    requires forall k :: 0 <= k < |s| ==> s[k] as int < 128 && b[2 * k] == s[k] as int && b[2 * k + 1] == 0
    ensures DecodeUtf16From(b, 2 * k, false) == Some(s[k..])
    decreases |s| - k
  {
    if k < |s| {
      Utf16AsciiFrom(s, b, k + 1);
      assert Unit(b, 2 * k, false) == s[k] as int;
      assert s[k..] == [s[k]] + s[k + 1..];
    }
  }

  predicate IsCont(x: Byte) { 0x80 <= x <= 0xBF }

  /** The character encoded by the well-formed UTF-8 sequence starting at
      `b[i]`, with the sequence's length; None if no well-formed sequence
      starts there (the table of well-formed byte sequences of UTF-8). */
  function Utf8At(b: seq<Byte>, i: nat): (r: Option<(char, nat)>)
    requires i < |b|
    ensures r.Some? ==> 1 <= r.value.1 <= 4 && i + r.value.1 <= |b|
    ensures r.Some? && r.value.1 == 1 <==> b[i] < 0x80
  {
    var b0 := b[i] as int;
    if b0 < 0x80 then Some((b0 as char, 1))
    else if 0xC2 <= b0 <= 0xDF && i + 1 < |b| && IsCont(b[i + 1]) then
      Some((((b0 - 0xC0) * 0x40 + (b[i + 1] as int - 0x80)) as char, 2))
    else if 0xE0 <= b0 <= 0xEF && i + 2 < |b| && IsCont(b[i + 1]) && IsCont(b[i + 2])
      && (b0 == 0xE0 ==> b[i + 1] >= 0xA0) && (b0 == 0xED ==> b[i + 1] <= 0x9F) then
      var cp := (b0 - 0xE0) * 0x1000 + (b[i + 1] as int - 0x80) * 0x40 + (b[i + 2] as int - 0x80);
      Some((cp as char, 3))
    else if 0xF0 <= b0 <= 0xF4 && i + 3 < |b| && IsCont(b[i + 1]) && IsCont(b[i + 2]) && IsCont(b[i + 3])
      && (b0 == 0xF0 ==> b[i + 1] >= 0x90) && (b0 == 0xF4 ==> b[i + 1] <= 0x8F) then
      var cp := (b0 - 0xF0) * 0x4_0000 + (b[i + 1] as int - 0x80) * 0x1000
        + (b[i + 2] as int - 0x80) * 0x40 + (b[i + 3] as int - 0x80);
      Some((cp as char, 4))
    else None
  }

  /** Strict UTF-8 decoding of `b[i..]`. */
  function DecodeUtf8From(b: seq<Byte>, i: nat): (r: Option<string>)
    requires i <= |b|
    decreases |b| - i
  {
    if i == |b| then Some([])
    else match Utf8At(b, i)
      case None => None
      case Some((ch, n)) =>
        match DecodeUtf8From(b, i + n)
        case None => None
        case Some(rest) => Some([ch] + rest)
  }

  function DecodeUtf8(b: seq<Byte>): Option<string>
  {
    DecodeUtf8From(b, 0)
  }

  /** `b[i..].decode('utf-8', errors='ignore')`. Each byte at which no
      well-formed sequence starts is dropped; since such a byte is never the
      start of the following sequence's maximal subpart, dropping one byte at
      a time gives the same text as dropping whole maximal subparts. */
  function DecodeUtf8IgnoreFrom(b: seq<Byte>, i: nat): (r: string)
    requires i <= |b|
    ensures |r| <= |b| - i
    decreases |b| - i
  {
    if i == |b| then []
    else match Utf8At(b, i)
      case None => DecodeUtf8IgnoreFrom(b, i + 1)
      case Some((ch, n)) => [ch] + DecodeUtf8IgnoreFrom(b, i + n)
  }

  function DecodeUtf8Ignore(b: seq<Byte>): string
  {
    DecodeUtf8IgnoreFrom(b, 0)
  }

  /** Strict ASCII decoding: fails on any byte of 128 or more. */
  function DecodeAscii(b: seq<Byte>): (r: Option<string>)
    ensures r.Some? <==> forall i :: 0 <= i < |b| ==> b[i] < 128
    ensures r.Some? ==> |r.value| == |b|
  {
    if forall i :: 0 <= i < |b| ==> b[i] < 128 then Some(AsciiChars(b)) else None
  }

  /** `b.decode('ascii', errors='ignore')`: the bytes below 128, in order. */
  function DecodeAsciiIgnore(b: seq<Byte>): (r: string)
    ensures |r| <= |b|
    ensures |r| == |b| <==> forall i :: 0 <= i < |b| ==> b[i] < 128
  {
    if b == [] then []
    else if b[0] < 128 then [b[0] as char] + DecodeAsciiIgnore(b[1..])
    else DecodeAsciiIgnore(b[1..])
  }

  /** Decoding an ASCII byte string strictly or with errors ignored agrees. */
  lemma {:induction false} AsciiIgnoreAgrees(b: seq<Byte>)
    requires DecodeAscii(b).Some?
    ensures DecodeAsciiIgnore(b) == DecodeAscii(b).value
  {
    if b != [] {
      AsciiIgnoreAgrees(b[1..]);
      assert AsciiChars(b) == [b[0] as char] + AsciiChars(b[1..]);
    }
  }

  /** ASCII is a subset of UTF-8: strict UTF-8 decoding of an ASCII byte
      string succeeds with the same text. */
  lemma {:induction false} AsciiIsUtf8(b: seq<Byte>, i: nat)
    requires i <= |b|
    requires forall k :: i <= k < |b| ==> b[k] < 128
    ensures DecodeUtf8From(b, i) == Some(AsciiChars(b[i..]))
    decreases |b| - i
  {
    if i < |b| {
      AsciiIsUtf8(b, i + 1);
      assert AsciiChars(b[i..]) == [b[i] as char] + AsciiChars(b[i + 1..]);
    }
  }
}
