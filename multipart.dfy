/** parseMultipart of deploy/server.js: a hand-written multipart/form-data parser over
    the raw request body. It cuts the body at each occurrence of "--" + boundary, takes
    the header block of every part up to its first blank line, picks the field name and
    file name out of the headers with the expressions name="([^"]+)" and
    filename="([^"]+)", and keeps one entry per field name, the last part winning.
    Bytes become text one byte per character, which is exact for ASCII. */
module Multipart {
  import opened Text

  const CrLf: Bytes := [13, 10]
  const BlankLine: Bytes := [13, 10, 13, 10]
  const Dashes: Bytes := [45, 45]

  // ---------------------------------------------------------------------------
  // Buffer and string conversions
  // ---------------------------------------------------------------------------

  /** A Buffer.slice index: negative counts from the end, then clamped to [0, len]. */
  function Clamp(i: int, len: nat): (r: nat)
    ensures r <= len
    ensures 0 <= i <= len ==> r == i
  {
    if i < 0 then (if i + len < 0 then 0 else i + len)
    else if i > len then len
    else i
  }

  /** Buffer.prototype.slice(s, e): empty when the clamped end is not after the clamped start. */
  function Slice(b: Bytes, s: int, e: int): (r: Bytes)
    ensures 0 <= s <= e <= |b| ==> r == b[s..e]
    ensures |r| <= |b|
  {
    var lo := Clamp(s, |b|);
    var hi := Clamp(e, |b|);
    if hi <= lo then [] else b[lo..hi]
  }

  /** Buffer.prototype.toString(), one character per byte. */
  function Decode(b: Bytes): (r: string)
    ensures |r| == |b|
    ensures forall i :: 0 <= i < |b| ==> r[i] as int == b[i] as int
  {
    seq(|b|, i requires 0 <= i < |b| => b[i] as int as char)
  }

  predicate IsByteText(s: string)
  {
    forall i :: 0 <= i < |s| ==> s[i] as int < 256
  }

  /** Buffer.from(s) for text whose characters all fit in a byte. */
  function Encode(s: string): (r: Bytes)
    requires IsByteText(s)
    ensures |r| == |s|
    ensures forall i :: 0 <= i < |s| ==> r[i] as int == s[i] as int
  {
    seq(|s|, i requires 0 <= i < |s| => s[i] as int as byte)
  }

  lemma DecodeEncode(s: string)
    requires IsByteText(s)
    ensures Decode(Encode(s)) == s
  {
  }

  /** The UTF-8 bytes of one character (a Unicode scalar value). */
  function Utf8Char(c: char): (r: Bytes)
    ensures 1 <= |r| <= 4
    ensures (c as int < 128) <==> |r| == 1
    ensures |r| == 1 ==> r[0] as int == c as int
  {
    var v := c as int;
    if v < 0x80 then [v as byte]
    else if v < 0x800 then [(0xC0 + v / 0x40) as byte, (0x80 + v % 0x40) as byte]
    else if v < 0x1_0000 then
      [(0xE0 + v / 0x1000) as byte, (0x80 + v / 0x40 % 0x40) as byte, (0x80 + v % 0x40) as byte]
    else
      [(0xF0 + v / 0x4_0000) as byte, (0x80 + v / 0x1000 % 0x40) as byte,
       (0x80 + v / 0x40 % 0x40) as byte, (0x80 + v % 0x40) as byte]
  }

  /** Buffer.from(s): the UTF-8 encoding of s. */
  function Utf8(s: string): (r: Bytes)
    ensures |r| >= |s|
  {
    if s == [] then [] else Utf8Char(s[0]) + Utf8(s[1..])
  }

  predicate IsAscii(s: string)
  {
    forall i :: 0 <= i < |s| ==> s[i] as int < 128
  }

  /** On ASCII text UTF-8 is one byte per character, so Buffer.from and toString are inverse. */
  lemma {:induction false} Utf8OfAscii(s: string)
    requires IsAscii(s)
    ensures Utf8(s) == Encode(s)
    ensures Decode(Utf8(s)) == s
  {
    if s != [] {
      Utf8OfAscii(s[1..]);
      assert Encode(s) == [s[0] as int as byte] + Encode(s[1..]);
    }
  }

  /** Any character outside ASCII makes the encoding longer than the text. */
  lemma {:induction false} Utf8Longer(s: string, i: nat)
    requires i < |s| && s[i] as int >= 128
    ensures |Utf8(s)| > |s|
  {
    if i > 0 {
      Utf8Longer(s[1..], i - 1);
    }
  }

  // ---------------------------------------------------------------------------
  // The header expressions
  // ---------------------------------------------------------------------------

  const NameKey := "name=\""
  const FilenameKey := "filename=\""

  /** The length of the run of characters other than '"' starting at j. */
  function QuoteRun(h: string, j: nat): (n: nat)
    requires j <= |h|
    ensures j + n <= |h|
    ensures forall i :: j <= i < j + n ==> h[i] != '"'
    ensures j + n < |h| ==> h[j + n] == '"'
    decreases |h| - j
  {
    if j == |h| || h[j] == '"' then 0 else 1 + QuoteRun(h, j + 1)
  }

  /** The group that key + ([^"]+) + '"' captures when the match starts at k. */
  function CaptureAt(h: string, key: string, k: nat): (r: Option<string>)
    ensures r.Some? ==> k + |key| + |r.value| < |h| && r.value != [] && '"' !in r.value
  {
    if MatchesAt(h, key, k) then
      var j := k + |key|;
      var n := QuoteRun(h, j);
      if n > 0 && j + n < |h| then Some(h[j..j + n]) else None
    else None
  }

  /** String.prototype.match: the capture of the leftmost match at or after `from`. */
  function Capture(h: string, key: string, from: nat): (r: Option<string>)
    ensures r.Some? ==> r.value != [] && '"' !in r.value
    decreases |h| - from
  {
    if from >= |h| then None
    else if CaptureAt(h, key, from).Some? then CaptureAt(h, key, from)
    else Capture(h, key, from + 1)
  }

  lemma {:induction false} CaptureIs(h: string, key: string, from: nat, k: nat)
    requires from <= k && CaptureAt(h, key, k).Some?
    requires forall j :: from <= j < k ==> CaptureAt(h, key, j).None?
    ensures Capture(h, key, from) == CaptureAt(h, key, k)
    decreases k - from
  {
    if from < k {
      CaptureIs(h, key, from + 1, k);
    }
  }

  lemma {:induction false} CaptureNone(h: string, key: string, from: nat)
    requires forall j :: from <= j ==> CaptureAt(h, key, j).None?
    ensures Capture(h, key, from).None?
    decreases |h| - from
  {
    if from < |h| {
      CaptureNone(h, key, from + 1);
    }
  }

  /** The capture read off a known layout: the key at k, then v, then a quote. */
  lemma CaptureHere(h: string, key: string, k: nat, v: string)
    requires MatchesAt(h, key, k) && v != [] && '"' !in v
    requires k + |key| + |v| < |h| && h[k + |key|..k + |key| + |v|] == v && h[k + |key| + |v|] == '"'
    ensures CaptureAt(h, key, k) == Some(v)
  {
    var j := k + |key|;
    assert forall i :: j <= i < j + |v| ==> h[i] == v[i - j];
  }

  /** With no earlier capture, the leftmost one is read off the layout a + key + v + '"' + b. */
  lemma CaptureAfter(a: string, key: string, v: string, b: string)
    requires v != [] && '"' !in v
    requires forall k :: 0 <= k < |a| ==> CaptureAt(a + key + v + "\"" + b, key, k).None?
    ensures Capture(a + key + v + "\"" + b, key, 0) == Some(v)
  {
    var h := a + key + v + "\"" + b;
    var j := |a|;
    assert h[j..j + |key|] == key;
    assert h[j + |key|..j + |key| + |v|] == v;
    assert h[j + |key| + |v|] == '"';
    CaptureHere(h, key, j, v);
    CaptureIs(h, key, 0, j);
  }

  /** A key ending in a quote is first captured right after a quote-free lead. */
  lemma CaptureFirst(a: string, key: string, v: string, b: string)
    requires key != [] && key[|key| - 1] == '"' && '"' !in a + key[..|key| - 1]
    requires v != [] && '"' !in v
    ensures Capture(a + key + v + "\"" + b, key, 0) == Some(v)
  {
    var h := a + key + v + "\"" + b;
    var u := a + key[..|key| - 1];
    assert h[..|u|] == u;
    forall k | 0 <= k < |a| ensures CaptureAt(h, key, k).None? {
      var i := k + |key| - 1;
      assert h[i] == h[..|u|][i] == u[i];
      Mismatch(h, key, k, i);
    }
    CaptureAfter(a, key, v, b);
  }

  // ---------------------------------------------------------------------------
  // The parser
  // ---------------------------------------------------------------------------

  /** `parts[name]`: a file part is `{ filename, data }`, any other part its content as text. */
  datatype Part = TextField(text: string) | FileField(filename: string, data: Bytes)

  /** The entry a part with these headers and this content contributes, if the headers carry
      a name. */
  function EntryOf(headers: string, content: Bytes): (r: Option<(string, Part)>)
    ensures r.Some? ==> r.value.0 != [] && '"' !in r.value.0
  {
    match Capture(headers, NameKey, 0)
    case None => None
    case Some(name) =>
      match Capture(headers, FilenameKey, 0)
      case Some(filename) => Some((name, FileField(filename, content)))
      case None => Some((name, TextField(Decode(content))))
  }

  /** The entry one part contributes: headers up to the first blank line, content after it. */
  function PartEntry(part: Bytes): (r: Option<(string, Part)>)
    ensures r.Some? ==> r.value.0 != [] && '"' !in r.value.0
  {
    var headerEnd := IndexOf(part, BlankLine, 0);
    EntryOf(Decode(Slice(part, 0, headerEnd)), Slice(part, headerEnd + 4, |part|))
  }

  function AddPart(parts: map<string, Part>, part: Bytes): map<string, Part>
  {
    match PartEntry(part)
    case None => parts
    case Some((name, value)) => parts[name := value]
  }

  /** "--" followed by the boundary. */
  function Marker(boundary: Bytes): Bytes
  {
    Dashes + boundary
  }

  /** Where the first part starts: two bytes past the first marker. */
  function FirstStart(body: Bytes, marker: Bytes): nat
  {
    var i := IndexOf(body, marker, 0);
    if i + |marker| + 2 < 0 then 0 else i + |marker| + 2
  }

  /** The parts the loop of parseMultipart cuts out from `start` on: each runs up to two bytes
      before the next marker, and the next part starts two bytes after that marker. */
  function Pieces(body: Bytes, marker: Bytes, start: nat): seq<Bytes>
    decreases |body| - start
  {
    if start >= |body| then []
    else
      var end := IndexOf(body, marker, start);
      if end == -1 then []
      else [Slice(body, start, end - 2)] + Pieces(body, marker, end + |marker| + 2)
  }

  /** Storing the entries of the parts in order, a later entry replacing an earlier one. */
  function AddParts(acc: map<string, Part>, xs: seq<Bytes>): map<string, Part>
    decreases |xs|
  {
    if xs == [] then acc else AddParts(AddPart(acc, xs[0]), xs[1..])
  }

  /** What parseMultipart(body, boundary) returns. */
  function Parsed(body: Bytes, boundary: Bytes): map<string, Part>
  {
    AddParts(map[], Pieces(body, Marker(boundary), FirstStart(body, Marker(boundary))))
  }

  /** One round of the loop, stated over the loop's own variables. */
  lemma ParseStep(body: Bytes, marker: Bytes, start: nat, end: int, next: nat)
    requires start < |body| && end == IndexOf(body, marker, start) && end != -1
    requires next == end + |marker| + 2
    ensures Pieces(body, marker, start) == [Slice(body, start, end - 2)] + Pieces(body, marker, next)
  {
  }

  lemma AddPartsCons(acc: map<string, Part>, x: Bytes, xs: seq<Bytes>)
    ensures AddParts(acc, [x] + xs) == AddParts(AddPart(acc, x), xs)
  {
    assert ([x] + xs)[1..] == xs;
  }

  /** parseMultipart. Each round moves `start` past the marker it found, so the loop ends. */
  method ParseMultipart(body: Bytes, boundary: Bytes) returns (parts: map<string, Part>)
    ensures parts == Parsed(body, boundary)
  {
    parts := map[];
    var marker := Marker(boundary);
    var start: nat := IndexOf(body, marker, 0) + |marker| + 2;
    while start < |body|
      invariant Parsed(body, boundary) == AddParts(parts, Pieces(body, marker, start))
      decreases |body| - start
    {
      var end := IndexOf(body, marker, start);
      if end == -1 {
        break;
      }
      var part := Slice(body, start, end - 2);
      ghost var before, from := parts, start;
      parts := AddPart(parts, part);
      start := end + |marker| + 2;
      ParseStep(body, marker, from, end, start);
      AddPartsCons(before, part, Pieces(body, marker, start));
    }
  }

  /** A part with no blank line: IndexOf gives -1, so the header text is all but the last byte
      of the part and the content starts at its fourth byte. */
  lemma PartWithoutBlankLine(part: Bytes)
    requires IndexOf(part, BlankLine, 0) == -1 && |part| >= 4
    ensures PartEntry(part) == EntryOf(Decode(part[..|part| - 1]), part[3..])
  {
    assert Slice(part, 0, -1) == part[..|part| - 1];
    assert Slice(part, 3, |part|) == part[3..];
  }

  // ---------------------------------------------------------------------------
  // Round trip: a body laid out as a client lays it out parses back to its fields
  // ---------------------------------------------------------------------------

  datatype Field = Field(name: string, value: Part)

  const DispositionPrefix := "Content-Disposition: form-data; "

  /** A name or file name the headers can carry: non-empty, one byte per character, and no
      '"', '=' or carriage return. */
  predicate Token(s: string)
  {
    s != [] && IsByteText(s) && forall i :: 0 <= i < |s| ==> s[i] != '"' && s[i] != '=' && s[i] != '\r'
  }

  predicate Encodable(f: Field)
  {
    Token(f.name) && match f.value
      case FileField(filename, _) => Token(filename)
      case TextField(text) => IsByteText(text)
  }

  function Disposition(f: Field): (d: string)
    requires Encodable(f)
    ensures IsByteText(d) && '\r' !in d
  {
    var head := DispositionPrefix + NameKey + f.name + "\"";
    var tail := if f.value.FileField? then "; " + FilenameKey + f.value.filename + "\"" else "";
    assert IsByteText(DispositionPrefix + NameKey) && '\r' !in DispositionPrefix + NameKey;
    assert IsByteText(head) && '\r' !in head;
    assert IsByteText(tail) && '\r' !in tail;
    head + tail
  }

  function Content(f: Field): Bytes
    requires Encodable(f)
  {
    match f.value
    case FileField(_, data) => data
    case TextField(text) => Encode(text)
  }

  /** The bytes of one part between the CRLF after its marker and the CRLF before the next. */
  function PartBytes(f: Field): Bytes
    requires Encodable(f)
  {
    Encode(Disposition(f)) + BlankLine + Content(f)
  }

  /** The marker occurs in the bytes of a part, followed by CRLF and the marker, only where
      the next marker begins. */
  predicate BoundaryFree(marker: Bytes, x: Bytes)
  {
    IndexOf(x + CrLf + marker, marker, 0) == |x| + 2
  }

  predicate Encodables(fs: seq<Field>)
  {
    forall i :: 0 <= i < |fs| ==> Encodable(fs[i])
  }

  function PartsOf(fs: seq<Field>): (xs: seq<Bytes>)
    requires Encodables(fs)
    ensures |xs| == |fs|
    ensures forall i :: 0 <= i < |fs| ==> xs[i] == PartBytes(fs[i])
  {
    seq(|fs|, i requires 0 <= i < |fs| && Encodables(fs) => PartBytes(fs[i]))
  }

  /** Every part after a marker line and followed by CRLF. */
  function Layout(marker: Bytes, xs: seq<Bytes>): Bytes
  {
    if xs == [] then []
    else marker + CrLf + xs[0] + CrLf + Layout(marker, xs[1..])
  }

  function Closing(marker: Bytes): Bytes
  {
    marker + Dashes + CrLf
  }

  /** A multipart body: every field after a marker line, then the closing marker. */
  function EncodeBody(boundary: Bytes, fs: seq<Field>): Bytes
    requires Encodables(fs)
  {
    Layout(Marker(boundary), PartsOf(fs)) + Closing(Marker(boundary))
  }

  /** Storing the fields in order into `acc`, a later field replacing an earlier one. */
  function CollectFrom(acc: map<string, Part>, fs: seq<Field>): map<string, Part>
    decreases |fs|
  {
    if fs == [] then acc else CollectFrom(acc[fs[0].name := fs[0].value], fs[1..])
  }

  function Collect(fs: seq<Field>): map<string, Part>
  {
    CollectFrom(map[], fs)
  }

  /** A name no field carries keeps the value it had, or stays absent. */
  lemma {:induction false} CollectUntouched(acc: map<string, Part>, fs: seq<Field>, x: string)
    requires forall i :: 0 <= i < |fs| ==> fs[i].name != x
    ensures x in CollectFrom(acc, fs) <==> x in acc
    ensures x in acc ==> CollectFrom(acc, fs)[x] == acc[x]
    decreases |fs|
  {
    if fs != [] {
      assert fs[0].name != x;
      CollectUntouched(acc[fs[0].name := fs[0].value], fs[1..], x);
    }
  }

  /** The last field with a given name is the one that stays. */
  lemma {:induction false} CollectLastWins(acc: map<string, Part>, fs: seq<Field>, i: nat)
    requires i < |fs|
    requires forall j :: i < j < |fs| ==> fs[j].name != fs[i].name
    ensures fs[i].name in CollectFrom(acc, fs)
    ensures CollectFrom(acc, fs)[fs[i].name] == fs[i].value
    decreases i
  {
    var acc' := acc[fs[0].name := fs[0].value];
    if i == 0 {
      CollectUntouched(acc', fs[1..], fs[0].name);
    } else {
      assert fs[1..][i - 1] == fs[i];
      CollectLastWins(acc', fs[1..], i - 1);
    }
  }

  /** The file name expression cannot match in `u"n"t` before the first quote of t, when the
      character six before the first quote is not 'e' and n does not end in '='. */
  lemma NoFilenameBefore(u: string, n: string, t: string, r: nat, k: nat)
    requires '"' !in u && |u| >= 6 && u[|u| - 6] != 'e'
    requires n != [] && '"' !in n && n[|n| - 1] != '='
    requires r <= |t| && '"' !in t[..r]
    requires k + 9 < |u| + |n| + 2 + r
    ensures !MatchesAt(u + "\"" + n + "\"" + t, FilenameKey, k)
  {
    var h := u + "\"" + n + "\"" + t;
    var i := k + 9;
    if i == |u| {
      assert h[k + 3] == u[|u| - 6];
      Mismatch(h, FilenameKey, k, k + 3);
    } else if i == |u| + |n| + 1 {
      assert h[k + 8] == n[|n| - 1];
      Mismatch(h, FilenameKey, k, k + 8);
    } else {
      if i < |u| {
        assert h[i] == u[i];
      } else if i < |u| + 1 + |n| {
        assert h[i] == n[i - |u| - 1];
      } else {
        assert h[i] == t[..r][i - |u| - |n| - 2];
      }
      Mismatch(h, FilenameKey, k, i);
    }
  }

  /** The name expression finds the name of an encoded disposition. */
  lemma NameOfDisposition(f: Field)
    requires Encodable(f)
    ensures Capture(Disposition(f), NameKey, 0) == Some(f.name)
  {
    var rest := if f.value.FileField? then "; " + FilenameKey + f.value.filename + "\"" else "";
    assert Disposition(f) == DispositionPrefix + NameKey + f.name + "\"" + rest;
    assert NameKey[..|NameKey| - 1] == "name=";
    assert '"' !in DispositionPrefix + "name=";
    CaptureFirst(DispositionPrefix, NameKey, f.name, rest);
  }

  /** The file name expression finds the file name of a file part and nothing in a text part. */
  lemma FilenameOfDisposition(f: Field)
    requires Encodable(f)
    ensures Capture(Disposition(f), FilenameKey, 0) ==
      if f.value.FileField? then Some(f.value.filename) else None
  {
    if f.value.FileField? {
      FilenameInFilePart(f.name, f.value.filename);
    } else {
      NoFilenameInTextPart(f.name);
    }
  }

  lemma FilenameInFilePart(n: string, v: string)
    requires Token(n) && Token(v)
    ensures Capture(DispositionPrefix + NameKey + n + "\"" + ("; " + FilenameKey + v + "\""), FilenameKey, 0) == Some(v)
  {
    var u := DispositionPrefix + "name=";
    assert '"' !in u && u[|u| - 6] == ' ';
    assert n[|n| - 1] in n;
    var t := "; " + FilenameKey + v + "\"";
    assert t[..11] == "; filename=";
    var d := u + "\"" + n + "\"" + t;
    assert DispositionPrefix + NameKey + n + "\"" + t == d;
    var a := u + "\"" + n + "\"" + "; ";
    assert d == a + FilenameKey + v + "\"" + "";
    forall k | 0 <= k < |a| ensures CaptureAt(d, FilenameKey, k).None? {
      NoFilenameBefore(u, n, t, 11, k);
    }
    CaptureAfter(a, FilenameKey, v, "");
  }

  lemma NoFilenameInTextPart(n: string)
    requires Token(n)
    ensures Capture(DispositionPrefix + NameKey + n + "\"" + "", FilenameKey, 0) == None
  {
    var u := DispositionPrefix + "name=";
    assert '"' !in u && u[|u| - 6] == ' ';
    assert n[|n| - 1] in n;
    var d := u + "\"" + n + "\"" + "";
    assert DispositionPrefix + NameKey + n + "\"" + "" == d;
    forall k | 0 <= k ensures CaptureAt(d, FilenameKey, k).None? {
      if k + 10 <= |d| {
        NoFilenameBefore(u, n, "", 0, k);
      }
    }
    CaptureNone(d, FilenameKey, 0);
  }

  /** Headers free of carriage returns end at the blank line that follows them. */
  lemma HeaderEnd(h: Bytes, c: Bytes)
    requires forall j :: 0 <= j < |h| ==> h[j] != 13
    ensures IndexOf(h + BlankLine + c, BlankLine, 0) == |h|
  {
    var part := h + BlankLine + c;
    assert part[|h|..|h| + 4] == BlankLine;
    forall j | 0 <= j < |h|
      ensures !MatchesAt(part, BlankLine, j)
    {
      assert part[j] == h[j];
      Mismatch(part, BlankLine, j, j);
    }
    IndexOfIs(part, BlankLine, 0, |h|);
  }

  /** One encoded part yields exactly its field. */
  lemma PartEntryOfField(f: Field)
    requires Encodable(f)
    ensures PartEntry(PartBytes(f)) == Some((f.name, f.value))
  {
    var d := Disposition(f);
    EncodedHeaderFree(d);
    DecodeEncode(d);
    PartEntryOfHeaders(Encode(d), Content(f), d);
    EntryOfDisposition(f);
  }

  /** A part whose headers hold no carriage return is split at the blank line after them. */
  lemma PartEntryOfHeaders(h: Bytes, c: Bytes, d: string)
    requires forall j :: 0 <= j < |h| ==> h[j] != 13
    requires Decode(h) == d
    ensures PartEntry(h + BlankLine + c) == EntryOf(d, c)
  {
    HeaderEnd(h, c);
    PartSlices(h, c);
  }

  lemma EncodedHeaderFree(d: string)
    requires IsByteText(d) && '\r' !in d
    ensures forall j :: 0 <= j < |Encode(d)| ==> Encode(d)[j] != 13
  {
    forall j | 0 <= j < |Encode(d)| ensures Encode(d)[j] != 13 {
      assert d[j] in d;
    }
  }

  lemma PartSlices(h: Bytes, c: Bytes)
    ensures Slice(h + BlankLine + c, 0, |h|) == h
    ensures Slice(h + BlankLine + c, |h| + 4, |h + BlankLine + c|) == c
  {
  }

  /** The headers of an encoded part name its field, and say whether it is a file. */
  lemma EntryOfDisposition(f: Field)
    requires Encodable(f)
    ensures EntryOf(Disposition(f), Content(f)) == Some((f.name, f.value))
  {
    NameOfDisposition(f);
    FilenameOfDisposition(f);
    if f.value.TextField? {
      DecodeEncode(f.value.text);
    }
  }

  /** After a part laid out behind a marker, the next marker found is the one that follows it. */
  lemma NextMarker(pre: Bytes, marker: Bytes, x: Bytes, rest: Bytes)
    requires IndexOf(x + CrLf + marker, marker, 0) == |x| + 2
    ensures IndexOf(pre + marker + CrLf + x + CrLf + marker + rest, marker, |pre| + |marker| + 2)
            == |pre| + |marker| + |x| + 4
  {
    var lead := pre + marker + CrLf;
    var y := x + CrLf + marker;
    var body := pre + marker + CrLf + x + CrLf + marker + rest;
    assert body == lead + y + rest;
    forall j | |lead| <= j < |lead| + |x| + 2
      ensures !MatchesAt(body, marker, j)
    {
      MatchesInside(lead, y, rest, marker, j - |lead|);
    }
    MatchesInside(lead, y, rest, marker, |x| + 2);
    IndexOfIs(body, marker, |lead|, |lead| + |x| + 2);
  }

  /** The part sits between the CRLF after its marker and the CRLF before the next marker. */
  lemma PartInLayout(pre: Bytes, marker: Bytes, x: Bytes, rest: Bytes)
    ensures var body := pre + marker + CrLf + x + CrLf + marker + rest;
      Slice(body, |pre| + |marker| + 2, |pre| + |marker| + |x| + 2) == x
  {
    var lead := pre + marker + CrLf;
    var body := pre + marker + CrLf + x + CrLf + marker + rest;
    assert body[|lead|..|lead| + |x|] == x by {
      forall i | 0 <= i < |x| ensures body[|lead| + i] == x[i] {
        assert body[|lead| + i] == (lead + x)[|lead| + i];
      }
    }
  }

  lemma Regroup(a: Bytes, b: Bytes, c: Bytes, d: Bytes, e: Bytes, f: Bytes)
    ensures a + b + c + d + e + f == a + (b + c + d + e + f)
    ensures a + (b + c + d + (e + f)) == a + b + c + d + e + f
  {
  }

  lemma RegroupPart(m: Bytes, c: Bytes, x: Bytes, r: Bytes, z: Bytes, rest: Bytes)
    requires r + z == m + rest
    ensures (m + c + x + c + r) + z == m + c + x + c + m + rest
    ensures (m + c + x + c + r) + z == (m + c + x + c) + (r + z)
  {
    var lead := m + c + x + c;
    assert (m + c + x + c + r) + z == lead + (r + z);
    assert lead + (m + rest) == lead + m + rest;
  }

  /** What follows the first marker of a layout and the closing marker. */
  function AfterMarker(marker: Bytes, xs: seq<Bytes>): Bytes
  {
    if xs == [] then Dashes + CrLf
    else CrLf + xs[0] + CrLf + Layout(marker, xs[1..]) + Closing(marker)
  }

  /** A layout followed by the closing marker starts with the marker. */
  lemma LayoutStartsWithMarker(marker: Bytes, xs: seq<Bytes>)
    ensures Layout(marker, xs) + Closing(marker) == marker + AfterMarker(marker, xs)
  {
    if xs == [] {
      assert Layout(marker, xs) + Closing(marker) == Closing(marker);
      assert marker + Dashes + CrLf == marker + (Dashes + CrLf);
    } else {
      Regroup(marker, CrLf, xs[0], CrLf, Layout(marker, xs[1..]), Closing(marker));
    }
  }

  /** A layout after `pre` splits after its first part. */
  lemma LayoutSplit(pre: Bytes, marker: Bytes, xs: seq<Bytes>)
    requires xs != []
    ensures pre + (Layout(marker, xs) + Closing(marker))
         == (pre + marker + CrLf + xs[0] + CrLf) + (Layout(marker, xs[1..]) + Closing(marker))
    ensures pre + (Layout(marker, xs) + Closing(marker))
         == pre + marker + CrLf + xs[0] + CrLf + marker + AfterMarker(marker, xs[1..])
  {
    var r := Layout(marker, xs[1..]);
    LayoutStartsWithMarker(marker, xs[1..]);
    RegroupPart(marker, CrLf, xs[0], r, Closing(marker), AfterMarker(marker, xs[1..]));
    var lead := marker + CrLf + xs[0] + CrLf;
    assert pre + (lead + (r + Closing(marker))) == (pre + marker + CrLf + xs[0] + CrLf) + (r + Closing(marker));
    assert pre + (marker + CrLf + xs[0] + CrLf + marker + AfterMarker(marker, xs[1..]))
        == pre + marker + CrLf + xs[0] + CrLf + marker + AfterMarker(marker, xs[1..]);
  }

  /** In a layout, the first part runs from two bytes after the first marker to two bytes
      before the second. */
  lemma LayoutFirstPart(body: Bytes, pre: Bytes, marker: Bytes, xs: seq<Bytes>, start: nat, end: int)
    requires xs != [] && BoundaryFree(marker, xs[0])
    requires body == pre + (Layout(marker, xs) + Closing(marker))
    requires start == |pre| + |marker| + 2 && end == start + |xs[0]| + 2
    ensures start < |body| && IndexOf(body, marker, start) == end && Slice(body, start, end - 2) == xs[0]
  {
    LayoutSplit(pre, marker, xs);
    NextMarker(pre, marker, xs[0], AfterMarker(marker, xs[1..]));
    PartInLayout(pre, marker, xs[0], AfterMarker(marker, xs[1..]));
  }

  /** One round of the loop, in terms of the part it cuts out and the parts after it. */
  lemma PiecesStep(body: Bytes, marker: Bytes, start: nat, end: int, next: nat, x: Bytes, rest: seq<Bytes>)
    requires start < |body| && IndexOf(body, marker, start) == end && end != -1
    requires next == end + |marker| + 2
    requires Slice(body, start, end - 2) == x
    requires Pieces(body, marker, next) == rest
    ensures Pieces(body, marker, start) == [x] + rest
  {
    ParseStep(body, marker, start, end, next);
  }

  /** The parser cuts a layout that follows `pre` and precedes the closing marker into exactly
      its parts. */
  lemma {:induction false} PiecesOfLayout(body: Bytes, pre: Bytes, marker: Bytes, xs: seq<Bytes>, start: nat)
    requires |marker| > 2
    requires forall i :: 0 <= i < |xs| ==> BoundaryFree(marker, xs[i])
    requires body == pre + (Layout(marker, xs) + Closing(marker))
    requires start == |pre| + |marker| + 2
    ensures Pieces(body, marker, start) == xs
    decreases |xs|
  {
    if xs == [] {
      assert |body| == |pre| + |marker| + 4;
      assert start + |marker| > |body|;
    } else {
      var x := xs[0];
      var pre' := pre + marker + CrLf + x + CrLf;
      var end: int := start + |x| + 2;
      var next: nat := end + |marker| + 2;
      assert BoundaryFree(marker, x);
      LayoutFirstPart(body, pre, marker, xs, start, end);
      LayoutSplit(pre, marker, xs);
      assert forall i :: 0 <= i < |xs[1..]| ==> BoundaryFree(marker, xs[1..][i]) by {
        forall i | 0 <= i < |xs[1..]| ensures BoundaryFree(marker, xs[1..][i]) {
          assert xs[1..][i] == xs[i + 1];
        }
      }
      PiecesOfLayout(body, pre', marker, xs[1..], next);
      PiecesStep(body, marker, start, end, next, x, xs[1..]);
      assert xs == [x] + xs[1..];
    }
  }

  /** Adding the parts of encoded fields stores the fields. */
  lemma {:induction false} AddPartsOfFields(acc: map<string, Part>, fs: seq<Field>)
    requires Encodables(fs)
    ensures AddParts(acc, PartsOf(fs)) == CollectFrom(acc, fs)
    decreases |fs|
  {
    if fs != [] {
      PartEntryOfField(fs[0]);
      assert PartsOf(fs)[1..] == PartsOf(fs[1..]);
      AddPartsOfFields(acc[fs[0].name := fs[0].value], fs[1..]);
    }
  }

  /** A body laid out by a client with a boundary that occurs in no part parses back to its
      fields, the last field of each name winning. */
  lemma ParseEncodedBody(boundary: Bytes, fs: seq<Field>)
    requires boundary != []
    requires Encodables(fs)
    requires forall i :: 0 <= i < |fs| ==> BoundaryFree(Marker(boundary), PartBytes(fs[i]))
    ensures Parsed(EncodeBody(boundary, fs), boundary) == Collect(fs)
  {
    var marker := Marker(boundary);
    var xs := PartsOf(fs);
    var body := EncodeBody(boundary, fs);
    assert body == Layout(marker, xs) + Closing(marker);
    LayoutStartsWithMarker(marker, xs);
    assert MatchesAt(body, marker, 0) by {
      assert body[..|marker|] == marker;
    }
    IndexOfIs(body, marker, 0, 0);
    var start := FirstStart(body, marker);
    assert start == |marker| + 2;
    assert body == [] + (Layout(marker, xs) + Closing(marker));
    assert forall i :: 0 <= i < |xs| ==> BoundaryFree(marker, xs[i]);
    PiecesOfLayout(body, [], marker, xs, start);
    AddPartsOfFields(map[], fs);
  }
}
