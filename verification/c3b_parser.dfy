/** The reader for Cocos2d-x `.c3b` model files (tools/c3b_parser.py): the
    little-endian field readers, the header check, and the scan that recovers
    length-prefixed UTF-8 resource names from the rest of the file. */
module C3bParser {
  import opened Common
  import opened Codecs
  import opened Extensions
  import opened RecordWalk

  /** The four little-endian bytes of a 32-bit value: what
      `struct.pack('<I', v)` writes and `struct.unpack('<I', ...)` reads. */
  function Le32(v: nat): (b: seq<Byte>)
    requires v < 0x1_0000_0000
    ensures |b| == 4
  {
    [v % 0x100, v / 0x100 % 0x100, v / 0x100 / 0x100 % 0x100, v / 0x100 / 0x100 / 0x100]
  }

  /** Reading back the bytes of `Le32(v)`, wherever they sit, gives `v`. */
  lemma Le32RoundTrip(data: seq<Byte>, i: nat, v: nat)
    requires v < 0x1_0000_0000 && i + 4 <= |data| && data[i..i + 4] == Le32(v)
    ensures U32LE(data, i) == v
  {
    var q1 := v / 0x100;
    var q2 := q1 / 0x100;
    var q3 := q2 / 0x100;
    assert v == v % 0x100 + 0x100 * q1;
    assert q1 == q1 % 0x100 + 0x100 * q2;
    assert q2 == q2 % 0x100 + 0x100 * q3;
    assert data[i] == v % 0x100 && data[i + 1] == q1 % 0x100;
    assert data[i + 2] == q2 % 0x100 && data[i + 3] == q3;
  }

  /** `read_uint32` (c3b_parser.py:41-44): the value at `offset` and the
      offset just past it; `struct.unpack` fails on fewer than four bytes. */
  function ReadUint32(data: seq<Byte>, offset: nat): (r: Option<(nat, nat)>)
    ensures r.Some? <==> offset + 4 <= |data|
    ensures r.Some? ==> r.value.0 < 0x1_0000_0000 && r.value.1 == offset + 4
  {
    if offset + 4 <= |data| then Some((U32LE(data, offset), offset + 4)) else None
  }

  /** A value written at `offset` is read back, with the offset after it. */
  lemma ReadUint32RoundTrip(pre: seq<Byte>, v: nat, post: seq<Byte>)
    requires v < 0x1_0000_0000
    ensures ReadUint32(pre + Le32(v) + post, |pre|) == Some((v, |pre| + 4))
  {
    var data := pre + Le32(v) + post;
    assert data[|pre|..|pre| + 4] == Le32(v);
    Le32RoundTrip(data, |pre|, v);
  }

  /** Drops one trailing NUL byte, if there is one. */
  function StripNul(b: seq<Byte>): (r: seq<Byte>)
    ensures if |b| > 0 && b[|b| - 1] == 0 then r + [0] == b else r == b
  {
    if |b| > 0 && b[|b| - 1] == 0 then b[..|b| - 1] else b
  }

  function Min(a: nat, b: nat): nat { if a <= b then a else b }

  /** `read_string` (c3b_parser.py:24-39): a 32-bit length, then that many
      bytes (Python's slice stops at the end of the data), one trailing NUL
      dropped, decoded as UTF-8 ignoring errors. It fails when the length
      cannot be read, and when a positive length leaves no byte to look at
      (`string_data[-1]` of an empty slice). */
  function ReadString(data: seq<Byte>, offset: nat): (r: Option<(string, nat)>)
    ensures r.None? <==> offset + 4 > |data| || (U32LE(data, offset) > 0 && offset + 4 == |data|)
    ensures r.Some? ==> r.value.1 == offset + 4 + U32LE(data, offset)
  {
    if offset + 4 > |data| then None
    else
      var n := U32LE(data, offset);
      var payload := data[offset + 4..Min(offset + 4 + n, |data|)];
      if n > 0 && payload == [] then None
      else Some((DecodeUtf8Ignore(StripNul(payload)), offset + 4 + n))
  }

  /** A NUL-terminated string written with its length is read back without
      the terminator, and the offset lands just past it; only one NUL is
      removed, so a string that itself ends in NUL keeps that byte. */
  lemma ReadStringRoundTrip(pre: seq<Byte>, b: seq<Byte>, post: seq<Byte>)
    requires |b| + 1 < 0x1_0000_0000
    ensures ReadString(pre + Le32(|b| + 1) + b + [0] + post, |pre|)
         == Some((DecodeUtf8Ignore(b), |pre| + 4 + |b| + 1))
  {
    var data := pre + Le32(|b| + 1) + b + [0] + post;
    var o := |pre|;
    assert data[o..o + 4] == Le32(|b| + 1);
    Le32RoundTrip(data, o, |b| + 1);
    assert data[o + 4..o + 4 + |b| + 1] == b + [0];
    assert StripNul(b + [0]) == b;
  }

  /** A length running past the end of the data still moves the offset by
      the full length, beyond the last byte. */
  lemma ReadStringPastEnd(data: seq<Byte>, offset: nat)
    requires offset + 4 < |data| && offset + 4 + U32LE(data, offset) > |data|
    ensures ReadString(data, offset).Some? && ReadString(data, offset).value.1 > |data|
  {
  }

  /** The file identifier `C3B\0`. */
  const C3bMagic: seq<Byte> := [0x43, 0x33, 0x42, 0x00]

  /** How `parse_header` ends: with the header length, or with the
      `ValueError` of a wrong identifier, or with the `struct.error` of a
      version field cut short. */
  datatype HeaderResult = HeaderEnd(offset: nat) | NotC3b | ShortHeader

  /** `parse_header` (c3b_parser.py:51-63). */
  function ParseHeader(data: seq<Byte>): (r: HeaderResult)
    ensures r.NotC3b? <==> !StartsWith(data, C3bMagic)
    ensures r.HeaderEnd? <==> StartsWith(data, C3bMagic) && |data| >= 8
    ensures r.HeaderEnd? ==> r.offset == 8
  {
    if !StartsWith(data, C3bMagic) then NotC3b
    else if |data| < 8 then ShortHeader
    else HeaderEnd(8)
  }

  /** A written header, whatever its version, is accepted and is 8 bytes long. */
  lemma HeaderRoundTrip(version: nat, rest: seq<Byte>)
    requires version < 0x1_0000_0000
    ensures ParseHeader(C3bMagic + Le32(version) + rest) == HeaderEnd(8)
  {
    var data := C3bMagic + Le32(version) + rest;
    assert data[..4] == C3bMagic;
  }

  /** The extensions that make a dotted name a resource name (c3b_parser.py:116-120). */
  const ResourceExtensions: set<string> :=
    {"png", "jpg", "jpeg", "bmp", "tga", "pvr", "ktx", "astc",
     "c3b", "c3t", "fbx", "obj", "dae", "blend",
     "fnt", "ttf", "json", "plist", "xml"}

  /** The keywords that make any name a material name (c3b_parser.py:125),
      already in lower case, so `keyword.lower()` is the keyword itself. */
  const MaterialKeywords: seq<string> := ["material", "mat", "diffuse", "normal", "specular", "texture"]

  /** The extensions `is_image_file` accepts (c3b_parser.py:138). */
  const ImageFileExtensions: seq<string> := [".png", ".jpg", ".jpeg", ".bmp", ".tga", ".pvr", ".ktx", ".astc"]

  predicate ResourceChar(ch: char) { IsAlnum(ch) || ch == '_' || ch == '-' || ch == '.' }

  /** The name has a dot and its last dot-separated segment, lower-cased, is
      a listed extension: `string.split('.')[-1].lower() in valid_extensions`. */
  predicate ListedExtension(s: string)
  {
    '.' in s && Lower(Last(Split(s, '.'))) in ResourceExtensions
  }

  /** `is_valid_resource_name` (c3b_parser.py:107-134). */
  predicate IsValidResourceName(s: string): (ok: bool)
    ensures ok ==> 3 <= |s| <= 256
  {
    if |s| < 3 || |s| > 256 then false
    else if ListedExtension(s) then true
    else if MentionsAny(s, MaterialKeywords) then true
    else forall i :: 0 <= i < |s| ==> ResourceChar(s[i])
  }

  /** The keyword loop read as a quantifier: a name of acceptable length is a
      resource name exactly when it has a listed extension, contains a
      keyword ignoring case, or is made only of letters, digits, `_`, `-`
      and `.`. */
  lemma ValidResourceNameIff(s: string)
    ensures IsValidResourceName(s) <==>
      3 <= |s| <= 256 &&
      (ListedExtension(s)
       || (exists j :: 0 <= j < |MaterialKeywords| && Contains(Lower(s), MaterialKeywords[j]))
       || forall i :: 0 <= i < |s| ==> ResourceChar(s[i]))
  {
    MentionsFromIff(s, MaterialKeywords, 0);
  }

  /** Splitting a text without the separator gives the text itself. */
  lemma {:induction false} SplitNoSep(b: string, sep: char)
    requires forall i :: 0 <= i < |b| ==> b[i] != sep
    ensures Split(b, sep) == [b]
    decreases |b|
  {
    if |b| > 0 {
      SplitNoSep(b[1..], sep);
      assert [b[0]] + b[1..] == b;
    }
  }

  /** The last segment of `a + sep + b`, for `b` without the separator, is `b`. */
  lemma {:induction false} SplitLastSegment(a: string, b: string, sep: char)
    requires forall i :: 0 <= i < |b| ==> b[i] != sep
    ensures |Split(a + [sep] + b, sep)| >= 2 && Last(Split(a + [sep] + b, sep)) == b
    decreases |a|
  {
    var s := a + [sep] + b;
    if a == [] {
      assert s[1..] == b;
      SplitNoSep(b, sep);
    } else {
      assert s[0] == a[0];
      assert s[1..] == a[1..] + [sep] + b;
      SplitLastSegment(a[1..], b, sep);
    }
  }

  /** Any name `root.ext` of acceptable length whose extension, in any case,
      is listed is a resource name. */
  lemma NamedResource(root: string, ext: string)
    requires forall i :: 0 <= i < |ext| ==> ext[i] != '.'
    requires Lower(ext) in ResourceExtensions
    requires 3 <= |root| + 1 + |ext| <= 256
    ensures IsValidResourceName(root + "." + ext)
  {
    var s := root + "." + ext;
    SplitLastSegment(root, ext, '.');
    assert s[|root|] == '.';
  }

  /** `is_image_file` (c3b_parser.py:136-139): the lower-cased name ends
      with one of the eight image extensions. */
  predicate IsImageFile(name: string): (r: bool)
    ensures r ==> |name| >= 4
  {
    exists k :: 0 <= k < |ImageFileExtensions| && EndsWith(Lower(name), ImageFileExtensions[k])
  }

  /** Each image extension is a dot and a listed, dot-free resource extension. */
  lemma ImageExtensionsListed(k: nat)
    requires k < |ImageFileExtensions|
    ensures |ImageFileExtensions[k]| >= 2 && ImageFileExtensions[k][0] == '.'
    ensures ImageFileExtensions[k][1..] in ResourceExtensions
    ensures forall i :: 1 <= i < |ImageFileExtensions[k]| ==> ImageFileExtensions[k][i] != '.'
  {
  }

  /** A name ending, ignoring case, in a dot and a listed dot-free extension
      is a resource name, if not too long. */
  lemma EndsInResourceExtension(name: string, e: string)
    requires |name| <= 256 && |e| >= 2 && e[0] == '.' && e[1..] in ResourceExtensions
    requires forall i :: 1 <= i < |e| ==> e[i] != '.'
    requires EndsWith(Lower(name), e) && |name| >= 3
    ensures IsValidResourceName(name)
  {
    var d := |name| - |e|;
    assert Lower(name)[d..] == e;
    assert LowerChar(name[d]) == '.';
    var root := name[..d];
    var ext := name[d + 1..];
    assert Lower(ext) == e[1..] by {
      forall i | 0 <= i < |ext| ensures Lower(ext)[i] == e[1..][i] {
        assert Lower(name)[d + 1 + i] == e[1 + i];
      }
    }
    forall i | 0 <= i < |ext| ensures ext[i] != '.' {
      assert LowerChar(ext[i]) == e[1 + i];
    }
    assert name == root + "." + ext;
    NamedResource(root, ext);
  }

  /** Every image file name that is not too long passes the resource-name
      filter, so the scan's image set is the image names among its strings. */
  lemma ImageIsResource(name: string)
    requires |name| <= 256 && IsImageFile(name)
    ensures IsValidResourceName(name)
  {
    var k :| 0 <= k < |ImageFileExtensions| && EndsWith(Lower(name), ImageFileExtensions[k]);
    ImageExtensionsListed(k);
    EndsInResourceExtension(name, ImageFileExtensions[k]);
  }

  /** The string recovered from a record at `i`: a length of 1 to 1024
      that fits, a payload that after dropping one trailing NUL decodes
      (strict UTF-8, passed as `decode`, in the parser), and a text that
      passes the resource-name filter (c3b_parser.py:73-89). */
  function StringAt(data: seq<Byte>, i: nat, decode: PayloadDecoder): (r: Option<string>)
    requires i + 4 <= |data|
    ensures r.Some? ==> IsValidResourceName(r.value)
    ensures r.Some? ==> 1 <= U32LE(data, i) <= 1024 && i + 4 + U32LE(data, i) <= |data|
    ensures r.Some? ==> decode(StripNul(data[i + 4..i + 4 + U32LE(data, i)])) == r
  {
    var n := U32LE(data, i);
    if 1 <= n <= 1024 && i + 4 + n <= |data| then
      var text := decode(StripNul(data[i + 4..i + 4 + n]));
      if text.Some? && IsValidResourceName(text.value) then text else None
    else None
  }

  /** A resource name written as a NUL-terminated, length-prefixed record is
      recovered at the record's offset. */
  lemma StringAtRecord(pre: seq<Byte>, b: seq<Byte>, post: seq<Byte>, s: string)
    requires |b| + 1 <= 1024 && DecodeUtf8(b) == Some(s) && IsValidResourceName(s)
    ensures StringAt(pre + Le32(|b| + 1) + b + [0] + post, |pre|, DecodeUtf8) == Some(s)
  {
    var data := pre + Le32(|b| + 1) + b + [0] + post;
    var o := |pre|;
    assert data[o..o + 4] == Le32(|b| + 1);
    Le32RoundTrip(data, o, |b| + 1);
    assert data[o + 4..o + 4 + |b| + 1] == b + [0];
    assert StripNul(b + [0]) == b;
  }

  /** The strings `extract_strings_from_data` collects from offset `i` on,
      trying every offset while four bytes and one more remain. */
  function StringsFrom(data: seq<Byte>, i: nat, decode: PayloadDecoder): seq<string>
    decreases |data| - i
  {
    if i + 4 >= |data| then []
    else
      var found := StringAt(data, i, decode);
      (if found.Some? then [found.value] else []) + StringsFrom(data, i + 1, decode)
  }

  /** One offset of the scan: its record, if any, then the rest. */
  lemma StringsStep(data: seq<Byte>, i: nat, decode: PayloadDecoder, found: Option<string>, rest: seq<string>)
    requires i + 4 < |data| && found == StringAt(data, i, decode) && rest == StringsFrom(data, i + 1, decode)
    ensures StringsFrom(data, i, decode) == (if found.Some? then [found.value] else []) + rest
  {
  }

  /** The loop's account of the scan stays true across one offset. */
  lemma ScanAdvance(data: seq<Byte>, start: nat, decode: PayloadDecoder, i: nat,
                    strings: seq<string>, found: Option<string>)
    requires i + 4 < |data| && found == StringAt(data, i, decode)
    requires strings + StringsFrom(data, i, decode) == StringsFrom(data, start, decode)
    ensures (strings + if found.Some? then [found.value] else []) + StringsFrom(data, i + 1, decode)
         == StringsFrom(data, start, decode)
  {
    var rest := StringsFrom(data, i + 1, decode);
    StringsStep(data, i, decode, found, rest);
    ConcatAssoc(strings, if found.Some? then [found.value] else [], rest);
  }

  /** Every collected string comes from a record at a tried offset. */
  lemma {:induction false} StringsFromSound(data: seq<Byte>, i: nat, decode: PayloadDecoder, s: string)
    requires s in StringsFrom(data, i, decode)
    ensures exists j :: i <= j && j + 4 < |data| && StringAt(data, j, decode) == Some(s)
    decreases |data| - i
  {
    var found := StringAt(data, i, decode);
    var rest := StringsFrom(data, i + 1, decode);
    assert StringsFrom(data, i, decode) == (if found.Some? then [found.value] else []) + rest;
    if found != Some(s) {
      assert s in rest;
      StringsFromSound(data, i + 1, decode, s);
    }
  }

  /** Every record at a tried offset is collected. */
  lemma {:induction false} StringsFromComplete(data: seq<Byte>, i: nat, decode: PayloadDecoder, j: nat)
    requires i <= j && j + 4 < |data| && StringAt(data, j, decode).Some?
    ensures StringAt(data, j, decode).value in StringsFrom(data, i, decode)
    decreases j - i
  {
    var found := StringAt(data, i, decode);
    var rest := StringsFrom(data, i + 1, decode);
    assert StringsFrom(data, i, decode) == (if found.Some? then [found.value] else []) + rest;
    if i < j {
      StringsFromComplete(data, i + 1, decode, j);
    }
  }

  /** Every collected string is a resource name. */
  lemma StringsFromValid(data: seq<Byte>, i: nat, decode: PayloadDecoder, s: string)
    requires s in StringsFrom(data, i, decode)
    ensures IsValidResourceName(s)
  {
    StringsFromSound(data, i, decode, s);
  }

  /** The image names among `strings`, gathered as the loop adds them. */
  function ImagesIn(strings: seq<string>): set<string>
  {
    if strings == [] then {}
    else
      var s := Last(strings);
      ImagesIn(strings[..|strings| - 1]) + (if IsImageFile(s) then {s} else {})
  }

  /** The gathered set holds exactly the image names of the list. */
  lemma {:induction false} ImagesInIff(strings: seq<string>, s: string)
    ensures s in ImagesIn(strings) <==> s in strings && IsImageFile(s)
  {
    if strings != [] {
      var init := strings[..|strings| - 1];
      ImagesInIff(init, s);
      assert strings == init + [Last(strings)];
    }
  }

  /** Adding one more string to the list adds it to the set if it is an image. */
  lemma ImagesInSnoc(base: set<string>, strings: seq<string>, s: string)
    ensures base + ImagesIn(strings + [s]) == base + ImagesIn(strings) + (if IsImageFile(s) then {s} else {})
  {
    assert (strings + [s])[..|strings|] == strings;
  }

  /** The loop state of `extract_strings_from_data` at offset `i`: the
      strings so far and what is left make up the whole scan, and the image
      set is the one it started with plus the images listed so far. */
  ghost predicate Scanned(data: seq<Byte>, start: nat, decode: PayloadDecoder, i: nat,
                          strings: seq<string>, base: set<string>, images: set<string>)
  {
    strings + StringsFrom(data, i, decode) == StringsFrom(data, start, decode)
    && images == base + ImagesIn(strings)
  }

  /** One round of the loop: a record found is listed, and added to the
      image set if it names an image. */
  lemma ScanStep(data: seq<Byte>, start: nat, decode: PayloadDecoder, i: nat,
                 strings: seq<string>, base: set<string>, images: set<string>)
    requires i + 4 < |data| && Scanned(data, start, decode, i, strings, base, images)
    ensures var found := StringAt(data, i, decode);
      if found.Some? then
        Scanned(data, start, decode, i + 1, strings + [found.value], base,
                images + if IsImageFile(found.value) then {found.value} else {})
      else Scanned(data, start, decode, i + 1, strings, base, images)
  {
    var found := StringAt(data, i, decode);
    ScanAdvance(data, start, decode, i, strings, found);
    if found.Some? {
      ImagesInSnoc(base, strings, found.value);
    }
  }

  /** The parser object; only `referenced_images` carries state between
      calls (c3b_parser.py:19-22). */
  class C3bParser {
    var referencedImages: set<string>

    constructor()
      ensures referencedImages == {}
    {
      referencedImages := {};
    }

    /** `extract_strings_from_data` (c3b_parser.py:65-105): the offset moves
        by exactly one each round; every accepted string is listed, and the
        image names among them join `referenced_images`. */
    method ExtractStringsFromData(data: seq<Byte>, startOffset: nat) returns (strings: seq<string>)
      modifies this
      ensures strings == StringsFrom(data, startOffset, DecodeUtf8)
      ensures referencedImages == old(referencedImages) + ImagesIn(strings)
    {
      strings := ScanRecords(data, startOffset, DecodeUtf8);
    }

    /** The loop of `extract_strings_from_data`, for any payload decoder. */
    method ScanRecords(data: seq<Byte>, startOffset: nat, decode: PayloadDecoder) returns (strings: seq<string>)
      modifies this
      ensures strings == StringsFrom(data, startOffset, decode)
      ensures referencedImages == old(referencedImages) + ImagesIn(strings)
    {
      strings := [];
      var i := startOffset;
      while i + 4 < |data|
        invariant Scanned(data, startOffset, decode, i, strings, old(referencedImages), referencedImages)
        decreases |data| - i
      {
        var found := StringAt(data, i, decode);
        ScanStep(data, startOffset, decode, i, strings, old(referencedImages), referencedImages);
        if found.Some? {
          var s := found.value;
          strings := strings + [s];
          if IsImageFile(s) {
            referencedImages := referencedImages + {s};
          }
        }
        i := i + 1;
      }
    }
  }
}
