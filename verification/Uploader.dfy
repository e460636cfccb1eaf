/** The Google Code uploader: the form it builds, the request it sends and its credential retries.

    The server, the console and the file system are parameters: the replies the server gives one
    after the other, the lines typed at each prompt, and the file's base name and bytes.
*/
module Uploader {
  import opened Optional
  import opened Text
  import opened Multipart

  const BOUNDARY: string := "----------Googlecode_boundary_reindeer_flotilla"

  /** A file as os.path.basename and read() return it. */
  datatype File = File(name: string, content: string)

  // ----- the form

  type Field = (string, string)

  function FieldPart(f: Field): Part {
    Part(f.0, None, None, f.1)
  }

  function FilePart(file: File): Part {
    Part("filename", Some(file.name), Some("application/octet-stream"), file.content)
  }

  function FieldParts(fields: seq<Field>): (parts: seq<Part>)
    ensures |parts| == |fields|
    ensures forall i :: 0 <= i < |fields| ==> parts[i] == FieldPart(fields[i])
  {
    seq(|fields|, i requires 0 <= i < |fields| => FieldPart(fields[i]))
  }

  function FormParts(fields: seq<Field>, file: File): seq<Part> {
    FieldParts(fields) + [FilePart(file)]
  }

  // ----- encode_upload_request

  /** The lines of one part, its boundary line first. */
  function PartLines(boundary: string, p: Part): seq<string> {
    ["--" + boundary] + HeadersOf(p) + ["", p.content]
  }

  function LinesOf(boundary: string, parts: seq<Part>): seq<string> {
    if parts == [] then [] else PartLines(boundary, parts[0]) + LinesOf(boundary, parts[1..])
  }

  lemma {:induction false} LinesOfAppend(boundary: string, parts: seq<Part>, p: Part)
    ensures LinesOf(boundary, parts + [p]) == LinesOf(boundary, parts) + PartLines(boundary, p)
    decreases parts
  {
    hide PartLines;
    if parts == [] {
      assert parts + [p] == [p] && [p][1..] == [];
    } else {
      LinesOfAppend(boundary, parts[1..], p);
      assert (parts + [p])[1..] == parts[1..] + [p];
    }
  }

  lemma {:induction false} JoinHeaded(lines: seq<string>, content: string, rest: seq<string>)
    requires rest != []
    ensures Join(CRLF, lines + ["", content] + rest) == PrintHeaded(lines, content) + CRLF + Join(CRLF, rest)
    decreases lines
  {
    if lines == [] {
      JoinCons(CRLF, content, rest);
      JoinCons(CRLF, "", [content] + rest);
      assert lines + ["", content] + rest == [""] + ([content] + rest);
      assert "" + CRLF + (content + CRLF + Join(CRLF, rest)) == CRLF + content + CRLF + Join(CRLF, rest);
    } else {
      JoinHeaded(lines[1..], content, rest);
      JoinCons(CRLF, lines[0], lines[1..] + ["", content] + rest);
      assert lines + ["", content] + rest == [lines[0]] + (lines[1..] + ["", content] + rest);
    }
  }

  lemma ClosingLine(boundary: string)
    ensures Join(CRLF, ["--" + boundary + "--", ""]) == PrintBody(boundary, [])
  {
  }

  /** Joined by CRLF, the lines are the multipart body of the grammar. */
  lemma {:induction false} JoinedLinesAreBody(boundary: string, parts: seq<Part>)
    ensures Join(CRLF, LinesOf(boundary, parts) + ["--" + boundary + "--", ""]) == PrintBody(boundary, parts)
    decreases parts
  {
    hide HeadersOf, PrintHeaded, Join;
    var end := ["--" + boundary + "--", ""];
    if parts == [] {
      ClosingLine(boundary);
      assert LinesOf(boundary, parts) + end == end;
    } else {
      var p, rest := parts[0], LinesOf(boundary, parts[1..]) + end;
      var more := HeadersOf(p) + ["", p.content] + rest;
      JoinedLinesAreBody(boundary, parts[1..]);
      JoinHeaded(HeadersOf(p), p.content, rest);
      JoinCons(CRLF, "--" + boundary, more);
      assert LinesOf(boundary, parts) + end == ["--" + boundary] + more;
      var head, body := PrintHeaded(HeadersOf(p), p.content), PrintBody(boundary, parts[1..]);
      assert "--" + boundary + CRLF + (head + CRLF + body) == "--" + boundary + CRLF + head + CRLF + body;
    }
  }

  lemma FieldHeaders(f: Field)
    ensures HeadersOf(FieldPart(f)) == ["Content-Disposition: form-data; name=\"" + f.0 + "\""]
  {
    assert DISPOSITION + (FORM_DATA + (f.0 + "\"" + "")) == "Content-Disposition: form-data; name=\"" + f.0 + "\"";
  }

  lemma FieldLines(boundary: string, f: Field)
    ensures PartLines(boundary, FieldPart(f)) ==
            ["--" + boundary, "Content-Disposition: form-data; name=\"" + f.0 + "\"", "", f.1]
  {
    FieldHeaders(f);
    hide HeadersOf;
  }

  lemma Regrouped(a: string, b: string, name: string, q: string, c: string, v: string)
    ensures a + (b + (name + q + (c + (v + q)))) == a + b + (name + q + c) + v + q
  {
  }

  lemma NameOpens()
    ensures DISPOSITION + FORM_DATA == "Content-Disposition: form-data; name=\""
  {
  }

  lemma FileNameOpens()
    ensures "filename" + "\"" + FILE_NAME == "filename\"; filename=\""
  {
  }

  lemma FileDisposition()
    ensures DISPOSITION + FORM_DATA + ("filename" + "\"" + FILE_NAME) ==
            "Content-Disposition: form-data; name=\"filename\"; filename=\""
  {
    NameOpens();
    FileNameOpens();
  }

  lemma FileContentType()
    ensures CONTENT_TYPE + "application/octet-stream" == "Content-Type: application/octet-stream"
  {
  }

  lemma FileHeaders(file: File)
    ensures HeadersOf(FilePart(file)) ==
            ["Content-Disposition: form-data; name=\"filename\"; filename=\"" + file.name + "\"",
             "Content-Type: application/octet-stream"]
  {
    FileDisposition();
    Regrouped(DISPOSITION, FORM_DATA, "filename", "\"", FILE_NAME, file.name);
    FileContentType();
  }

  lemma FileLines(boundary: string, file: File)
    ensures PartLines(boundary, FilePart(file)) ==
            ["--" + boundary,
             "Content-Disposition: form-data; name=\"filename\"; filename=\"" + file.name + "\"",
             "Content-Type: application/octet-stream", "", file.content]
  {
    FileHeaders(file);
    hide HeadersOf;
  }

  lemma FieldPartsAppend(fields: seq<Field>, n: nat)
    requires n < |fields|
    ensures FieldParts(fields[..n + 1]) == FieldParts(fields[..n]) + [FieldPart(fields[n])]
  {
  }

  lemma PrintedHeaders(lines: seq<string>, content: string)
    ensures lines != [] ==> PrintHeaded(lines, content) == lines[0] + CRLF + PrintHeaded(lines[1..], content)
    ensures lines == [] ==> PrintHeaded(lines, content) == CRLF + content
  {
  }

  lemma NextPart(boundary: string, p: Part, parts: seq<Part>)
    ensures PrintBody(boundary, [p] + parts) ==
            "--" + boundary + CRLF + PrintHeaded(HeadersOf(p), p.content) + CRLF + PrintBody(boundary, parts)
  {
    assert ([p] + parts)[1..] == parts;
  }

  /** How a field stands in the body, byte by byte. */
  lemma FieldOnTheWire(f: Field, fields: seq<Field>, file: File)
    ensures PrintBody(BOUNDARY, FormParts([f] + fields, file)) ==
            "--" + "----------Googlecode_boundary_reindeer_flotilla" + "\r\n" +
            ("Content-Disposition: form-data; name=\"" + f.0 + "\"" + "\r\n" + ("\r\n" + f.1)) + "\r\n" +
            PrintBody(BOUNDARY, FormParts(fields, file))
  {
    FieldHeaders(f);
    var lines := HeadersOf(FieldPart(f));
    assert FormParts([f] + fields, file) == [FieldPart(f)] + FormParts(fields, file);
    hide PrintBody, HeadersOf, PrintHeaded, FormParts;
    NextPart(BOUNDARY, FieldPart(f), FormParts(fields, file));
    PrintedHeaders(lines, f.1);
    PrintedHeaders(lines[1..], f.1);
  }

  /** How the file stands in the body, byte by byte, and how the body ends. */
  lemma FileOnTheWire(file: File)
    ensures PrintBody(BOUNDARY, FormParts([], file)) ==
            "--" + "----------Googlecode_boundary_reindeer_flotilla" + "\r\n" +
            ("Content-Disposition: form-data; name=\"filename\"; filename=\"" + file.name + "\"" + "\r\n" +
             ("Content-Type: application/octet-stream" + "\r\n" + ("\r\n" + file.content))) + "\r\n" +
            ("--" + "----------Googlecode_boundary_reindeer_flotilla" + "--" + "\r\n")
  {
    FileHeaders(file);
    var lines := HeadersOf(FilePart(file));
    assert FormParts([], file) == [FilePart(file)] + [];
    assert PrintBody(BOUNDARY, []) == "--" + BOUNDARY + "--" + CRLF;
    hide PrintBody, HeadersOf, PrintHeaded, FormParts;
    NextPart(BOUNDARY, FilePart(file), []);
    PrintedHeaders(lines, file.content);
    PrintedHeaders(lines[1..], file.content);
    PrintedHeaders(lines[1..][1..], file.content);
  }

  method EncodeUploadRequest(fields: seq<Field>, file: File) returns (contentType: string, body: string)
    ensures contentType == "multipart/form-data; boundary=" + "----------Googlecode_boundary_reindeer_flotilla"
    ensures body == PrintBody(BOUNDARY, FormParts(fields, file))
  {
    hide PartLines, LinesOf, PrintBody, FieldParts, FieldPart, FilePart, Join;
    var lines: seq<string> := [];
    assert LinesOf(BOUNDARY, FieldParts([])) == [] by {
      NoLines(BOUNDARY);
    }
    for n := 0 to |fields|
      invariant lines == LinesOf(BOUNDARY, FieldParts(fields[..n]))
    {
      var (key, value) := fields[n];
      lines := lines +
        ["--" + BOUNDARY,
         "Content-Disposition: form-data; name=\"" + key + "\"",
         "",
         value];
      FieldLines(BOUNDARY, fields[n]);
      FieldPartsAppend(fields, n);
      LinesOfAppend(BOUNDARY, FieldParts(fields[..n]), FieldPart(fields[n]));
    }
    assert fields[..|fields|] == fields;
    lines := lines +
      ["--" + BOUNDARY,
       "Content-Disposition: form-data; name=\"filename\"; filename=\"" + file.name + "\"",
       "Content-Type: application/octet-stream",
       "",
       file.content];
    FileLines(BOUNDARY, file);
    LinesOfAppend(BOUNDARY, FieldParts(fields), FilePart(file));
    lines := lines + ["--" + BOUNDARY + "--", ""];
    JoinedLinesAreBody(BOUNDARY, FormParts(fields, file));
    contentType := "multipart/form-data; boundary=" + BOUNDARY;
    body := Join(CRLF, lines);
  }

  lemma NoLines(boundary: string)
    ensures LinesOf(boundary, FieldParts([])) == []
  {
  }

  // ----- reading the form back

  predicate IsBchar(c: char) {
    || 'a' <= c <= 'z' || 'A' <= c <= 'Z' || '0' <= c <= '9'
    || c == '\'' || c == '(' || c == ')' || c == '+' || c == '_' || c == ',' || c == '-'
    || c == '.' || c == '/' || c == ':' || c == '=' || c == '?' || c == ' '
  }

  ghost predicate AllBchars(s: string) {
    forall i :: 0 <= i < |s| ==> IsBchar(s[i])
  }

  lemma BoundaryInPieces()
    ensures BOUNDARY == "----------" + "Googlecode_" + "boundary_" + "reindeer_flotilla"
  {
  }

  lemma PiecesAreBchars()
    ensures var s := "----------" + "Googlecode_" + "boundary_" + "reindeer_flotilla";
            && AllBchars(s)
            && forall i :: 0 <= i < |s| ==> 'a' <= s[i] <= 'z' || s[i] == 'G' || s[i] == '_' || s[i] == '-'
  {
  }

  lemma CrIsNoBchar()
    ensures !IsBchar('\r')
  {
  }

  /** The boundary is one that section 5.1.1 of RFC 2046 allows. */
  lemma BoundaryIsLegal()
    ensures 0 < |BOUNDARY| <= 70
    ensures BOUNDARY[|BOUNDARY| - 1] != ' '
    ensures AllBchars(BOUNDARY)
    ensures forall i :: 0 <= i < |BOUNDARY| ==>
      'a' <= BOUNDARY[i] <= 'z' || BOUNDARY[i] == 'G' || BOUNDARY[i] == '_' || BOUNDARY[i] == '-'
    ensures '\r' !in BOUNDARY
  {
    BoundaryInPieces();
    PiecesAreBchars();
    CrIsNoBchar();
    hide IsBchar;
  }

  ghost predicate FieldTransmissible(f: Field) {
    Quotable(f.0) && NoBoundaryLine(BOUNDARY, f.1)
  }

  /** What the server must be able to tell apart: no line of a value or of the file looks like a
      boundary line, and no name has a quote or a line break. */
  ghost predicate Transmissible(fields: seq<Field>, file: File) {
    && (forall i :: 0 <= i < |fields| ==> FieldTransmissible(fields[i]))
    && Quotable(file.name)
    && NoBoundaryLine(BOUNDARY, file.content)
  }

  lemma TransmissibleIsEncodable(fields: seq<Field>, file: File)
    ensures AllEncodable(BOUNDARY, FormParts(fields, file)) <==> Transmissible(fields, file)
  {
    hide NoBoundaryLine;
    var parts := FormParts(fields, file);
    NoCrNoBreak("application/octet-stream");
    NoCrNoBreak("filename");
    NoQuote("filename");
    assert Encodable(BOUNDARY, FilePart(file)) <==> Quotable(file.name) && NoBoundaryLine(BOUNDARY, file.content);
    hide Quotable;
    assert forall i :: 0 <= i < |fields| ==>
        (Encodable(BOUNDARY, parts[i]) <==> FieldTransmissible(fields[i]));
    assert parts[|fields|] == FilePart(file);
  }

  lemma NoQuote(s: string)
    requires '"' !in s
    ensures !Occurs("\"", s)
  {
    forall k: nat
      ensures !OccursAt("\"", s, k)
    {
      if OccursAt("\"", s, k) {
        OccurrenceHasFirst("\"", s, k);
      }
    }
  }

  /** The server reads back the fields, the file name and the file exactly when they are transmissible. */
  lemma FormReadsBackExactly(fields: seq<Field>, file: File)
    ensures Decode(BOUNDARY, PrintBody(BOUNDARY, FormParts(fields, file))) == Some(FormParts(fields, file))
            <==> Transmissible(fields, file)
  {
    BoundaryIsLegal();
    TransmissibleIsEncodable(fields, file);
    DecodeUndoesPrintExactly(BOUNDARY, FormParts(fields, file));
  }

  /** A file that begins like a boundary line is not read back. */
  lemma BoundaryFileIsLost(fields: seq<Field>, name: string)
    ensures var file := File(name, "--" + BOUNDARY);
            Decode(BOUNDARY, PrintBody(BOUNDARY, FormParts(fields, file))) != Some(FormParts(fields, file))
  {
    var file := File(name, "--" + BOUNDARY);
    assert CRLF + file.content == Delimiter(BOUNDARY);
    assert OccursAt(Delimiter(BOUNDARY), CRLF + file.content, 0);
    hide Decode, PrintBody, FormParts;
    FormReadsBackExactly(fields, file);
  }

  /** n fields make n + 2 boundary lines: one opens each field and the file, and the last one closes. */
  lemma BoundaryLines(fields: seq<Field>, file: File)
    requires Transmissible(fields, file)
    ensures var d, text := Delimiter(BOUNDARY), CRLF + PrintBody(BOUNDARY, FormParts(fields, file));
            var pieces := Split(d, text);
            && Count(d, text) == |fields| + 2
            && |pieces| == |fields| + 3
            && pieces[0] == ""
            && (forall i :: 1 <= i < |fields| + 2 ==> CRLF <= pieces[i])
            && pieces[|fields| + 2] == "--" + CRLF
  {
    var d, parts := Delimiter(BOUNDARY), FormParts(fields, file);
    BoundaryIsLegal();
    TransmissibleIsEncodable(fields, file);
    BodySplitsAtParts(BOUNDARY, parts);
    DelimiterIsBorderless(BOUNDARY);
    SplitUsesEveryOccurrence(d, CRLF + PrintBody(BOUNDARY, parts));
    PiecesOpenAndClose(parts);
  }

  lemma {:induction false} PiecesOpenAndClose(parts: seq<Part>)
    ensures forall i :: 0 <= i < |parts| ==> CRLF <= PiecesOf(parts)[i]
    ensures PiecesOf(parts)[|parts|] == "--" + CRLF
    decreases parts
  {
    if parts == [] {
    } else {
      PiecesOpenAndClose(parts[1..]);
      TakeDrop(CRLF, PrintPart(parts[0]));
    }
  }

  /** Different fields or files have different bodies. */
  lemma EncodingIsInjective(fields: seq<Field>, file: File, otherFields: seq<Field>, otherFile: File)
    requires Transmissible(fields, file) && Transmissible(otherFields, otherFile)
    requires PrintBody(BOUNDARY, FormParts(fields, file)) == PrintBody(BOUNDARY, FormParts(otherFields, otherFile))
    ensures fields == otherFields && file == otherFile
  {
    hide PrintBody, Transmissible;
    var parts, others := FormParts(fields, file), FormParts(otherFields, otherFile);
    FormReadsBackExactly(fields, file);
    FormReadsBackExactly(otherFields, otherFile);
    assert parts == others && |fields| == |otherFields|;
    assert parts[|fields|] == FilePart(file) && others[|fields|] == FilePart(otherFile);
    forall i | 0 <= i < |fields|
      ensures fields[i] == otherFields[i]
    {
      assert parts[i] == FieldPart(fields[i]) && others[i] == FieldPart(otherFields[i]);
    }
  }
}
