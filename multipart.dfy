/** The multipart/form-data handling of FileHandler.do_POST: the body is
    cut at every `--` + boundary, the first part mentioning `filename=` is
    taken, and its header and payload are separated at the first blank
    line. */
module Multipart {
  import opened Wrappers
  import opened Sequences
  import opened Bytes

  const FILENAME_FIELD: seq<byte> := Ascii("filename=")
  const FILENAME_OPEN: seq<byte> := Ascii("filename=\"")
  const QUOTE: seq<byte> := Ascii("\"")
  const HEADER_END: seq<byte> := Ascii("\r\n\r\n")
  const DASHES: seq<byte> := Ascii("--")
  const CRLF: seq<byte> := Ascii("\r\n")
  /** What ends a multipart body after its closing delimiter. */
  const CLOSE: seq<byte> := Ascii("--\r\n")
  /** The bytes stripped off the end of a payload (dash, CR, LF): a set
      of bytes, not a suffix. */
  const TRAILER: set<byte> := {45, 13, 10}

  /** The delimiter: two dashes followed by the boundary. */
  function Delimiter(boundary: seq<byte>): (d: seq<byte>)
    ensures |d| == |boundary| + 2 && StartsWith(d, DASHES) && d[|DASHES|..] == boundary
  {
    DASHES + boundary
  }

  /** No part mentions `filename=`. */
  predicate NoneNamesFile(parts: seq<seq<byte>>) {
    forall k :: 0 <= k < |parts| ==> !Contains(parts[k], FILENAME_FIELD)
  }

  /** The index of the first part containing `filename=`: the `for` loop
      with its early `return`. */
  function FirstFilePart(parts: seq<seq<byte>>): (r: Option<nat>)
    ensures r.Some? ==> r.value < |parts| && Contains(parts[r.value], FILENAME_FIELD)
    ensures r.Some? ==> forall k :: 0 <= k < r.value ==> !Contains(parts[k], FILENAME_FIELD)
    ensures r.None? ==> NoneNamesFile(parts)
    decreases |parts|
  {
    if parts == [] then None
    else if Contains(parts[0], FILENAME_FIELD) then Some(0)
    else
      match FirstFilePart(parts[1..])
      case None => None
      case Some(k) =>
        assert forall j :: 1 <= j <= k ==> parts[j] == parts[1..][j - 1];
        Some(k + 1)
  }

  /** The first matching part is the one chosen, whatever follows it. */
  lemma FirstFilePartIs(parts: seq<seq<byte>>, k: nat)
    requires k < |parts| && Contains(parts[k], FILENAME_FIELD)
    requires forall j :: 0 <= j < k ==> !Contains(parts[j], FILENAME_FIELD)
    ensures FirstFilePart(parts) == Some(k)
  {
  }

  /** `filename="` is `filename=` followed by a quote. */
  lemma OpenIsFieldQuote()
    ensures FILENAME_OPEN == FILENAME_FIELD + QUOTE
  {
  }

  /** The filename parameter: the second piece of the header split at
      `filename="`, up to its first quote; None where the source raises
      IndexError (the header has no `filename="`). */
  function FilenameOf(header: seq<byte>): (r: Option<seq<byte>>)
    ensures r.None? <==> !Contains(header, FILENAME_OPEN)
  {
    var pieces := Split(header, FILENAME_OPEN);
    if Contains(header, FILENAME_OPEN) then
      SplitContains(header, FILENAME_OPEN);
      Some(Split(pieces[1], QUOTE)[0])
    else
      SplitNone(header, FILENAME_OPEN);
      None
  }

  /** `s.split(sep)[0]` is the text before the first `sep`: what follows it
      in `s` is nothing or starts with `sep`. */
  lemma FirstPieceShape(s: seq<byte>, sep: seq<byte>)
    requires |sep| > 0
    ensures var p := Split(s, sep)[0];
      StartsWith(s, p) && (|p| == |s| || StartsWith(s[|p|..], sep))
  {
    SplitFirst(s, sep);
    if Contains(s, sep) {
      var j := Find(s, sep).value;
      assert s[j..][..|sep|] == s[j..j + |sep|];
    }
  }

  /** No `sep` starts inside the first piece of `s.split(sep)`. */
  lemma FirstPieceClear(s: seq<byte>, sep: seq<byte>)
    requires |sep| > 0
    ensures forall j: nat :: j < |Split(s, sep)[0]| ==> !OccursAt(s, sep, j)
  {
    SplitFirst(s, sep);
  }

  lemma FirstPieceNoQuote(s: seq<byte>)
    ensures QUOTE[0] !in Split(s, QUOTE)[0]
  {
    SplitFirst(s, QUOTE);
    FindSingle(s, QUOTE[0]);
    assert QUOTE == [QUOTE[0]];
  }

  /** FilenameOf is the text after the first `filename="`, up to the next
      quote or `filename="`. */
  lemma FilenameOfPieces(header: seq<byte>)
    requires Contains(header, FILENAME_OPEN)
    ensures var rest := header[Find(header, FILENAME_OPEN).value + |FILENAME_OPEN|..];
      FilenameOf(header).value == Split(Split(rest, FILENAME_OPEN)[0], QUOTE)[0]
  {
    SplitStep(header, FILENAME_OPEN);
  }

  /** The name starts right after the first `filename="`, holds no quote,
      and ends at whichever comes first of the next quote, the next
      `filename="` and the end of the header: no `filename="` starts
      inside it. */
  lemma FilenameOfShape(header: seq<byte>)
    requires Contains(header, FILENAME_OPEN)
    ensures var i := Find(header, FILENAME_OPEN).value;
      var rest := header[i + |FILENAME_OPEN|..];
      var name := FilenameOf(header).value;
      StartsWith(rest, name) && QUOTE[0] !in name &&
      (|name| == |rest| || StartsWith(rest[|name|..], QUOTE) || StartsWith(rest[|name|..], FILENAME_OPEN))
    ensures var i := Find(header, FILENAME_OPEN).value;
      var rest := header[i + |FILENAME_OPEN|..];
      forall j: nat :: j < |FilenameOf(header).value| ==> !OccursAt(rest, FILENAME_OPEN, j)
  {
    var i := Find(header, FILENAME_OPEN).value;
    var rest := header[i + |FILENAME_OPEN|..];
    FilenameOfPieces(header);
    var piece := Split(rest, FILENAME_OPEN)[0];
    FirstPieceShape(rest, FILENAME_OPEN);
    FirstPieceShape(piece, QUOTE);
    FirstPieceNoQuote(piece);
    FirstPieceClear(rest, FILENAME_OPEN);
    PrefixChain(rest, piece, Split(piece, QUOTE)[0], FILENAME_OPEN, QUOTE);
  }

  /** A prefix of a prefix, each ending at the end or at a separator. */
  lemma PrefixChain(s: seq<byte>, p: seq<byte>, q: seq<byte>, sep1: seq<byte>, sep2: seq<byte>)
    requires StartsWith(s, p) && (|p| == |s| || StartsWith(s[|p|..], sep1))
    requires StartsWith(p, q) && (|q| == |p| || StartsWith(p[|q|..], sep2))
    ensures StartsWith(s, q)
    ensures |q| == |s| || StartsWith(s[|q|..], sep2) || StartsWith(s[|q|..], sep1)
  {
    assert forall k :: 0 <= k < |p| ==> s[k] == p[k];
    assert s[..|q|] == p[..|q|];
    if |q| < |p| {
      assert s[|q|..][..|sep2|] == p[|q|..][..|sep2|];
    }
  }

  datatype Upload = Upload(filename: seq<byte>, payload: seq<byte>)

  /** What do_POST makes of a body: the file to save, no part naming a file
      (400 "Invalid Upload"), or a chosen part the source raises on. */
  datatype Extraction = Extracted(upload: Upload) | NoFilePart | Malformed

  /** The chosen part, cut at its first blank line into header and payload
      (None where there is none: the unpacking raises ValueError), with
      the trailer bytes stripped off the payload and the filename required
      to decode as UTF-8. */
  function ExtractPart(part: seq<byte>): (r: Option<Upload>)
    ensures r.None? <==>
      !Contains(part, HEADER_END) ||
      FilenameOf(part[..Find(part, HEADER_END).value]).None? ||
      !ValidUtf8(FilenameOf(part[..Find(part, HEADER_END).value]).value)
    ensures r.Some? ==>
      var i := Find(part, HEADER_END).value;
      r.value.filename == FilenameOf(part[..i]).value &&
      ValidUtf8(r.value.filename) && QUOTE[0] !in r.value.filename &&
      TrailerStripped(part[i + |HEADER_END|..], r.value.payload)
  {
    match Find(part, HEADER_END)
    case None => None
    case Some(i) =>
      var header := part[..i];
      match FilenameOf(header)
      case None => None
      case Some(name) =>
        NameNoQuote(header);
        var raw := part[i + |HEADER_END|..];
        PayloadStripped(raw);
        if ValidUtf8(name) then Some(Upload(name, RStrip(raw, TRAILER))) else None
  }

  /** The name taken from a header holds no quote. */
  lemma NameNoQuote(header: seq<byte>)
    requires Contains(header, FILENAME_OPEN)
    ensures QUOTE[0] !in FilenameOf(header).value
  {
    SplitContains(header, FILENAME_OPEN);
    FirstPieceNoQuote(Split(header, FILENAME_OPEN)[1]);
  }

  /** `rstrip` leaves a prefix that is followed only by trailer bytes and
      does not end with one. */
  lemma PayloadStripped(raw: seq<byte>)
    ensures TrailerStripped(raw, RStrip(raw, TRAILER))
  {
    RStripPrefix(raw, TRAILER);
  }

  /** `payload` is `raw` without its trailing run of `-`, CR and LF bytes. */
  predicate TrailerStripped(raw: seq<byte>, payload: seq<byte>) {
    StartsWith(raw, payload) &&
    (forall k :: |payload| <= k < |raw| ==> raw[k] in TRAILER) &&
    (payload == [] || payload[|payload| - 1] !in TRAILER)
  }

  /** The upload carried by `data`, delimited by `boundary`. */
  function Extract(boundary: seq<byte>, data: seq<byte>): (r: Extraction)
    ensures var parts := Split(data, Delimiter(boundary));
      r == NoFilePart <==> NoneNamesFile(parts)
  {
    var parts := Split(data, Delimiter(boundary));
    match FirstFilePart(parts)
    case None => NoFilePart
    case Some(k) =>
      match ExtractPart(parts[k])
      case None => Malformed
      case Some(u) => Extracted(u)
  }

  /** The extraction is decided by the first part that mentions `filename=`;
      the parts after it are never looked at. */
  lemma ExtractFirstMatch(boundary: seq<byte>, data: seq<byte>, k: nat)
    requires var parts := Split(data, Delimiter(boundary));
      k < |parts| && Contains(parts[k], FILENAME_FIELD) &&
      forall j :: 0 <= j < k ==> !Contains(parts[j], FILENAME_FIELD)
    ensures var part := Split(data, Delimiter(boundary))[k];
      Extract(boundary, data) == match ExtractPart(part)
        case None => Malformed
        case Some(u) => Extracted(u)
  {
    FirstFilePartIs(Split(data, Delimiter(boundary)), k);
  }

  /** A part header whose first filename parameter is `name`: `head`
      followed by `filename="<name>"`. What a client sends after it (the
      rest of the Content-Disposition line, a Content-Type line) is
      appended to this. */
  function FileHeader(head: seq<byte>, name: seq<byte>): seq<byte> {
    head + FILENAME_OPEN + name + QUOTE
  }

  /** One body part as section 5.1.1 of RFC 2046 lays it out: the header,
      the blank line, the content, and the line break that belongs to the
      next delimiter. */
  function FilePart(header: seq<byte>, payload: seq<byte>): seq<byte> {
    header + HEADER_END + payload + CRLF
  }

  /** A form body with one part, followed by the closing delimiter. */
  function FormBody(boundary: seq<byte>, part: seq<byte>): seq<byte> {
    Delimiter(boundary) + part + Delimiter(boundary) + CLOSE
  }

  /** The closing `--\r\n` holds no delimiter unless the boundary starts
      with a carriage return. */
  lemma CloseFree(boundary: seq<byte>)
    requires boundary != [] && boundary[0] != 13
    ensures !Contains(CLOSE, Delimiter(boundary))
  {
    var d := Delimiter(boundary);
    forall j: nat ensures !OccursAt(CLOSE, d, j) {
      if j + |d| <= |CLOSE| {
        assert CLOSE[j..j + |d|][2 - j] == CLOSE[2];
        assert d[2 - j] != CLOSE[2];
      }
    }
  }

  lemma OccursContains(s: seq<byte>, sep: seq<byte>, j: nat)
    requires OccursAt(s, sep, j)
    ensures Contains(s, sep)
  {
  }

  /** A body made of one part between an opening and a closing delimiter
      is cut into the empty preamble, the part, and the closing tail. */
  lemma SplitFormBody(boundary: seq<byte>, part: seq<byte>)
    requires boundary != [] && boundary[0] != 13
    requires EndsAtFirst(part, Delimiter(boundary))
    ensures Split(FormBody(boundary, part), Delimiter(boundary)) == [[], part, CLOSE]
  {
    CloseFree(boundary);
    SplitEnclosed(Delimiter(boundary), part, CLOSE);
  }

  /** A piece between two separators, with a separator-free tail. */
  lemma SplitEnclosed<T>(d: seq<T>, part: seq<T>, tail: seq<T>)
    requires |d| > 0 && EndsAtFirst(part, d) && !Contains(tail, d)
    ensures Split(d + part + d + tail, d) == [[], part, tail]
  {
    var after := part + d + tail;
    assert d + part + d + tail == [] + d + after;
    assert [[]] + ([part] + [tail]) == [[], part, tail];
    EndsAtFirstEmpty(d);
    SplitNone(tail, d);
    SplitAt(part, d, tail);
    SplitAt([], d, after);
  }

  /** The filename parameter read back from a header in which it is the
      first one, whatever follows its closing quote. */
  lemma FilenameOfFileHeader(head: seq<byte>, name: seq<byte>, tail: seq<byte>)
    requires EndsAtFirst(head, FILENAME_OPEN)
    requires QUOTE[0] !in name && !EndsWith(name, FILENAME_FIELD)
    ensures FilenameOf(FileHeader(head, name) + tail) == Some(name)
  {
    var header := FileHeader(head, name) + tail;
    var rest := name + QUOTE + tail;
    assert header == (head + FILENAME_OPEN) + rest;
    FindExtend(head + FILENAME_OPEN, rest, FILENAME_OPEN);
    FilenameOfPieces(header);
    assert header[|head| + |FILENAME_OPEN|..] == rest;
    NameThenQuote(name, tail);
  }

  /** After the opening `filename="`, the text up to the next `filename="`
      and then up to the next quote is the name. */
  lemma NameThenQuote(name: seq<byte>, tail: seq<byte>)
    requires QUOTE[0] !in name && !EndsWith(name, FILENAME_FIELD)
    ensures Split(Split(name + QUOTE + tail, FILENAME_OPEN)[0], QUOTE)[0] == name
  {
    var rest := name + QUOTE + tail;
    var p := Split(rest, FILENAME_OPEN)[0];
    FirstPieceShape(rest, FILENAME_OPEN);
    if |p| <= |name| {
      OpenAfterName(name, tail, |p|);
      assert false;
    }
    assert p[..|name|] == rest[..|p|][..|name|];
    assert p[|name|] == rest[..|p|][|name|];
    QuoteEndsName(p, name);
  }

  /** The first piece of `p` split at a quote is the quote-free text that
      precedes its first quote. */
  lemma QuoteEndsName(p: seq<byte>, name: seq<byte>)
    requires |name| < |p| && p[..|name|] == name && p[|name|] == QUOTE[0] && QUOTE[0] !in name
    ensures Split(p, QUOTE)[0] == name
  {
    FindSingleAt(p, QUOTE[0], |name|);
    assert QUOTE == [QUOTE[0]];
    SplitFirst(p, QUOTE);
  }

  /** No `filename="` starts inside a quote-free name that does not end in
      `filename=` when the name is followed by a quote. */
  lemma OpenAfterName(name: seq<byte>, tail: seq<byte>, j: nat)
    requires QUOTE[0] !in name && !EndsWith(name, FILENAME_FIELD) && j <= |name|
    ensures !OccursAt(name + QUOTE + tail, FILENAME_OPEN, j)
  {
    var rest := name + QUOTE + tail;
    OpenIsFieldQuote();
    if j + |FILENAME_OPEN| <= |rest| {
      var w := rest[j..j + |FILENAME_OPEN|];
      if j + 9 < |name| {
        assert w[9] == name[j + 9] && FILENAME_OPEN[9] == QUOTE[0];
      } else if j + 9 == |name| {
        assert w[..9] == name[|name| - 9..];
        assert FILENAME_OPEN[..9] == FILENAME_FIELD;
      } else {
        assert w[|name| - j] == QUOTE[0];
        assert FILENAME_OPEN[|name| - j] == FILENAME_FIELD[|name| - j];
      }
    }
  }

  /** Stripping the line break that precedes the next delimiter gives the
      payload back, provided it does not itself end in `-`, CR or LF. */
  lemma StripLineBreak(payload: seq<byte>)
    requires payload == [] || payload[|payload| - 1] !in TRAILER
    ensures RStrip(payload + CRLF, TRAILER) == payload
  {
    assert |CRLF| == 2 && CRLF[0] == 13 && CRLF[1] == 10;
    assert forall k :: 0 <= k < |CRLF| ==> CRLF[k] in TRAILER;
    if payload == [] {
      assert payload + CRLF == CRLF;
      RStripAll(CRLF, TRAILER);
    } else {
      RStripKeeps(payload, CRLF, TRAILER);
    }
  }

  /** A part whose first filename parameter is `name`, followed by
      anything but a blank line, and whose payload survives the `rstrip`,
      gives back that name and payload. */
  lemma ExtractFilePart(head: seq<byte>, name: seq<byte>, tail: seq<byte>, payload: seq<byte>)
    requires EndsAtFirst(head, FILENAME_OPEN)
    requires QUOTE[0] !in name && !EndsWith(name, FILENAME_FIELD) && ValidUtf8(name)
    requires EndsAtFirst(FileHeader(head, name) + tail, HEADER_END)
    requires payload == [] || payload[|payload| - 1] !in TRAILER
    ensures ExtractPart(FilePart(FileHeader(head, name) + tail, payload)) == Some(Upload(name, payload))
  {
    FilenameOfFileHeader(head, name, tail);
    StripLineBreak(payload);
    ExtractFromHeader(FileHeader(head, name) + tail, name, payload);
  }

  /** A part whose header gives `name` and whose payload survives the
      `rstrip` extracts to that name and payload. */
  lemma ExtractFromHeader(header: seq<byte>, name: seq<byte>, payload: seq<byte>)
    requires EndsAtFirst(header, HEADER_END)
    requires FilenameOf(header) == Some(name) && ValidUtf8(name)
    requires RStrip(payload + CRLF, TRAILER) == payload
    ensures ExtractPart(FilePart(header, payload)) == Some(Upload(name, payload))
  {
    var part := FilePart(header, payload);
    FilePartShape(header, payload);
    ExtractPartCut(part, |header|, header, payload + CRLF, name);
  }

  /** ExtractPart of a part cut at its first blank line into the given
      header and raw payload. */
  lemma ExtractPartCut(part: seq<byte>, i: nat, header: seq<byte>, raw: seq<byte>, name: seq<byte>)
    requires Find(part, HEADER_END) == Some(i)
    requires part[..i] == header && part[i + |HEADER_END|..] == raw
    requires FilenameOf(header) == Some(name) && ValidUtf8(name)
    ensures ExtractPart(part) == Some(Upload(name, RStrip(raw, TRAILER)))
  {
    ExtractPartAt(part, i, name);
  }

  /** ExtractPart unfolded at the first blank line: the filename comes from
      the header before it and the payload is what follows it, stripped. */
  lemma ExtractPartAt(part: seq<byte>, i: nat, name: seq<byte>)
    requires Find(part, HEADER_END) == Some(i)
    requires FilenameOf(part[..i]) == Some(name) && ValidUtf8(name)
    ensures ExtractPart(part) == Some(Upload(name, RStrip(part[i + |HEADER_END|..], TRAILER)))
  {
    var header := part[..i];
    match Find(part, HEADER_END)
    case Some(j) =>
      assert j == i && FilenameOf(header) == Some(name);
  }

  /** In a part whose header holds no earlier blank line, the first blank
      line separates exactly the header from the payload and its line
      break. */
  lemma FilePartShape(header: seq<byte>, payload: seq<byte>)
    requires EndsAtFirst(header, HEADER_END)
    ensures var part := FilePart(header, payload);
      Find(part, HEADER_END) == Some(|header|) &&
      part[..|header|] == header && part[|header| + |HEADER_END|..] == payload + CRLF
  {
    var part := FilePart(header, payload);
    assert part == (header + HEADER_END) + (payload + CRLF);
    FindExtend(header + HEADER_END, payload + CRLF, HEADER_END);
    assert part[..|header|] == header;
  }

  /** A part whose header holds `filename="` mentions `filename=`. */
  lemma HeaderNamesFile(header: seq<byte>, payload: seq<byte>)
    requires Contains(header, FILENAME_OPEN)
    ensures Contains(FilePart(header, payload), FILENAME_FIELD)
  {
    var part := FilePart(header, payload);
    var j := Find(header, FILENAME_OPEN).value;
    OpenIsFieldQuote();
    assert header[j..j + |FILENAME_FIELD|] == header[j..j + |FILENAME_OPEN|][..|FILENAME_FIELD|];
    assert OccursAt(header, FILENAME_FIELD, j);
    assert part == header + (HEADER_END + payload + CRLF);
    OccursInPrefix(header, HEADER_END + payload + CRLF, FILENAME_FIELD, j);
    OccursContains(part, FILENAME_FIELD, j);
  }

  /** Of the preamble, the part and the tail, the part is the one chosen. */
  lemma ChoosesFilePart(part: seq<byte>)
    requires Contains(part, FILENAME_FIELD)
    ensures FirstFilePart([[], part, CLOSE]) == Some(1)
  {
    var parts: seq<seq<byte>> := [[], part, CLOSE];
    assert !OccursAt(parts[0], FILENAME_FIELD, 0);
    FirstFilePartIs(parts, 1);
  }

  /** Round trip: a form body carrying one file gives back that file's name
      and bytes, when the blank line ends the part header, the header's
      filename parameter decodes, the boundary does not occur inside the
      part, and the payload does not end in `-`, CR or LF (those bytes would
      be stripped with the line break). */
  lemma ExtractFormBody(boundary: seq<byte>, header: seq<byte>, name: seq<byte>, payload: seq<byte>)
    requires boundary != [] && boundary[0] != 13
    requires EndsAtFirst(header, HEADER_END)
    requires FilenameOf(header) == Some(name) && ValidUtf8(name)
    requires payload == [] || payload[|payload| - 1] !in TRAILER
    requires EndsAtFirst(FilePart(header, payload), Delimiter(boundary))
    ensures Extract(boundary, FormBody(boundary, FilePart(header, payload))) ==
      Extracted(Upload(name, payload))
  {
    var part := FilePart(header, payload);
    SplitFormBody(boundary, part);
    HeaderNamesFile(header, payload);
    ChoosesFilePart(part);
    StripLineBreak(payload);
    ExtractFromHeader(header, name, payload);
  }
}
