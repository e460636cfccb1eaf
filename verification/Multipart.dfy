/** multipart/form-data bodies: the grammar of section 5.1.1 of RFC 2046 as a printer and a decoder,
    and the exact condition under which the decoder undoes the printer.
*/
module Multipart {
  import opened Optional
  import opened Text

  const CRLF: string := "\r\n"

  /** A form-data part (section 3 of RFC 2388). */
  datatype Part = Part(name: string, fileName: Option<string>, contentType: Option<string>, content: string)

  /** The line that separates parts: `delimiter := CRLF "--" boundary`. */
  function Delimiter(boundary: string): string {
    CRLF + "--" + boundary
  }

  // ----- the printer, after the grammar

  const DISPOSITION: string := "Content-Disposition: "
  const CONTENT_TYPE: string := "Content-Type: "
  const FORM_DATA: string := "form-data; name=\""
  const FILE_NAME: string := "; filename=\""

  function FileNameOf(p: Part): string {
    match p.fileName
    case None => ""
    case Some(f) => FILE_NAME + (f + "\"")
  }

  function DispositionOf(p: Part): string {
    FORM_DATA + (p.name + "\"" + FileNameOf(p))
  }

  function HeadersOf(p: Part): seq<string> {
    [DISPOSITION + DispositionOf(p)] +
    match p.contentType
    case None => []
    case Some(t) => [CONTENT_TYPE + t]
  }

  /** Header lines, each ended by CRLF, then an empty line and the content. */
  function PrintHeaded(lines: seq<string>, content: string): string {
    if lines == [] then CRLF + content
    else lines[0] + CRLF + PrintHeaded(lines[1..], content)
  }

  function PrintPart(p: Part): string {
    PrintHeaded(HeadersOf(p), p.content)
  }

  /** The dash-boundary lines with the parts between them. */
  function PrintBody(boundary: string, parts: seq<Part>): string {
    if parts == [] then "--" + boundary + "--" + CRLF
    else "--" + boundary + CRLF + PrintPart(parts[0]) + CRLF + PrintBody(boundary, parts[1..])
  }

  // ----- the decoder

  /** Transport padding: spaces and tabs at the end of a boundary line. */
  function SkipPadding(s: string): (r: string)
    ensures |r| <= |s| && r == s[|s| - |r|..]
  {
    if s != "" && (s[0] == ' ' || s[0] == '\t') then SkipPadding(s[1..]) else s
  }

  /** Header lines up to the first empty one, and what follows it. */
  function ParseHeaded(s: string): Option<(seq<string>, string)>
    decreases |s|
  {
    match Find(CRLF, s)
    case None => None
    case Some(k) =>
      if k == 0 then Some(([], s[2..]))
      else
        match ParseHeaded(s[k + 2..])
        case None => None
        case Some((lines, content)) => Some(([s[..k]] + lines, content))
  }

  /** The value of the first header line with the given beginning. */
  function FindHeader(lines: seq<string>, start: string): Option<string> {
    if lines == [] then None
    else if start <= lines[0] then Some(lines[0][|start|..])
    else FindHeader(lines[1..], start)
  }

  /** The text up to the next quote, and what follows it. */
  function ParseQuoted(s: string): Option<(string, string)> {
    match Find("\"", s)
    case None => None
    case Some(k) => Some((s[..k], s[k + 1..]))
  }

  /** The name, and the file name if there is one, in a form-data disposition. */
  function ParseDisposition(s: string): Option<(string, Option<string>)> {
    if !(FORM_DATA <= s) then None
    else
      match ParseQuoted(s[|FORM_DATA|..])
      case None => None
      case Some((name, rest)) =>
        if rest == "" then Some((name, None))
        else if !(FILE_NAME <= rest) then None
        else
          match ParseQuoted(rest[|FILE_NAME|..])
          case None => None
          case Some((fileName, end)) => if end == "" then Some((name, Some(fileName))) else None
  }

  function ParsePart(s: string): Option<Part> {
    match ParseHeaded(s)
    case None => None
    case Some((lines, content)) =>
      match FindHeader(lines, DISPOSITION)
      case None => None
      case Some(d) =>
        match ParseDisposition(d)
        case None => None
        case Some((name, fileName)) =>
          Some(Part(name, fileName, FindHeader(lines, CONTENT_TYPE), content))
  }

  /** The parts in what follows each delimiter, up to the close-delimiter; the epilogue is ignored. */
  function ParsePieces(pieces: seq<string>): Option<seq<Part>> {
    if pieces == [] then None
    else if "--" <= pieces[0] then
      var tail := SkipPadding(pieces[0][2..]);
      if tail == "" || CRLF <= tail then Some([]) else None
    else
      var line := SkipPadding(pieces[0]);
      if !(CRLF <= line) then None
      else
        match ParsePart(line[2..])
        case None => None
        case Some(p) =>
          match ParsePieces(pieces[1..])
          case None => None
          case Some(parts) => Some([p] + parts)
  }

  /** The delimiter counts wherever it occurs at the beginning of a line, the first line included;
      what comes before the first delimiter is the preamble, which is ignored. */
  function Decode(boundary: string, body: string): Option<seq<Part>> {
    ParsePieces(Split(Delimiter(boundary), CRLF + body)[1..])
  }

  // ----- what can be transmitted

  /** No line of the text starts with `--boundary`. */
  ghost predicate NoBoundaryLine(boundary: string, s: string) {
    !Occurs(Delimiter(boundary), CRLF + s)
  }

  /** Neither a quote nor a line break. */
  ghost predicate Quotable(s: string) {
    !Occurs("\"", s) && !Occurs(CRLF, s)
  }

  ghost predicate Encodable(boundary: string, p: Part) {
    && Quotable(p.name)
    && (p.fileName.Some? ==> Quotable(p.fileName.value))
    && (p.contentType.Some? ==> !Occurs(CRLF, p.contentType.value))
    && NoBoundaryLine(boundary, p.content)
  }

  ghost predicate AllEncodable(boundary: string, parts: seq<Part>) {
    forall i :: 0 <= i < |parts| ==> Encodable(boundary, parts[i])
  }

  // ----- the delimiter does not overlap itself

  /** A boundary without CR leaves the delimiter's only CR at its beginning. */
  lemma DelimiterIsBorderless(boundary: string)
    requires '\r' !in boundary
    ensures Borderless(Delimiter(boundary))
  {
    assert Delimiter(boundary)[1..] == "\n--" + boundary;
    FirstOnlyIsBorderless(Delimiter(boundary));
  }

  // ----- no delimiter outside the contents

  lemma NoBreakInLine(line: string, rest: string, k: nat)
    requires !Occurs(CRLF, line) && k < |line|
    ensures !OccursAt(CRLF, line + CRLF + rest, k)
  {
    var s := line + CRLF + rest;
    if k + 1 < |line| {
      assert line[k] == s[k] && line[k + 1] == s[k + 1];
      assert !OccursAt(CRLF, line, k);
      assert line[k..k + 2] == s[k..k + 2];
    } else {
      assert s[k..k + 2][1] == s[k + 1] == '\r';
    }
  }

  lemma BreakAt(s: string, k: nat)
    requires k + 1 < |s| && s[k] == '\r' && s[k + 1] == '\n'
    ensures OccursAt(CRLF, s, k)
  {
    var two := s[k..k + 2];
    assert |two| == 2 && two[0] == CRLF[0] && two[1] == CRLF[1];
  }

  lemma DelimiterBegins(boundary: string, s: string, k: nat)
    requires OccursAt(Delimiter(boundary), s, k)
    ensures k + 4 <= |s| && s[k] == '\r' && s[k + 1] == '\n' && s[k + 2] == '-' && s[k + 3] == '-'
  {
    var d, part := Delimiter(boundary), s[k..k + |Delimiter(boundary)|];
    assert d[0] == part[0] == s[k] && d[1] == part[1] == s[k + 1];
    assert d[2] == part[2] == s[k + 2] && d[3] == part[3] == s[k + 3];
  }

  lemma BeginsWithDashes(line: string)
    requires |line| >= 2 && line[0] == '-' && line[1] == '-'
    ensures "--" <= line
  {
  }

  /** An occurrence cannot begin in the line, nor with the line break before it. */
  lemma DelimiterBeginsLater(boundary: string, line: string, rest: string, k: nat)
    requires !Occurs(CRLF, line) && !("--" <= line)
    requires OccursAt(Delimiter(boundary), CRLF + line + CRLF + rest, k)
    ensures k >= 2 + |line|
  {
    var s, after := CRLF + line + CRLF + rest, line + CRLF + rest;
    DelimiterBegins(boundary, s, k);
    hide Delimiter;
    assert forall i :: 0 <= i < |after| ==> s[i + 2] == after[i];
    if k >= 2 {
      assert after[k - 2] == s[k] && after[k - 1] == s[k + 1];
      BreakAt(after, k - 2);
      if k - 2 < |line| {
        NoBreakInLine(line, rest, k - 2);
      }
    } else if k == 0 && |line| >= 2 {
      assert line[0] == after[0] && line[1] == after[1];
      BeginsWithDashes(line);
    }
  }

  /** The delimiter begins with a line break, so a line that holds none and does not begin with
      `--` contributes no occurrence. */
  lemma LineHidesNoDelimiter(boundary: string, line: string, rest: string, k: nat)
    requires !Occurs(CRLF, line) && !("--" <= line)
    requires OccursAt(Delimiter(boundary), CRLF + line + CRLF + rest, k)
    ensures Occurs(Delimiter(boundary), CRLF + rest)
  {
    DelimiterBeginsLater(boundary, line, rest, k);
    hide Delimiter;
    assert CRLF + line + CRLF + rest == (CRLF + line) + (CRLF + rest);
    OccursAtSplit(Delimiter(boundary), CRLF + line, CRLF + rest, k);
  }

  lemma {:induction false} HeadedHidesNoDelimiter(boundary: string, lines: seq<string>, content: string)
    requires forall i :: 0 <= i < |lines| ==> !Occurs(CRLF, lines[i]) && !("--" <= lines[i])
    requires NoBoundaryLine(boundary, content)
    ensures !Occurs(Delimiter(boundary), CRLF + PrintHeaded(lines, content))
    decreases lines
  {
    var line, rest := "", content;
    if lines == [] {
    } else {
      HeadedHidesNoDelimiter(boundary, lines[1..], content);
      line, rest := lines[0], PrintHeaded(lines[1..], content);
    }
    var s := CRLF + line + CRLF + rest;
    assert CRLF + PrintHeaded(lines, content) == s;
    forall k: nat
      ensures !OccursAt(Delimiter(boundary), s, k)
    {
      if OccursAt(Delimiter(boundary), s, k) {
        LineHidesNoDelimiter(boundary, line, rest, k);
      }
    }
  }

  // ----- the conditions, line by line and character by character

  /** An occurrence that begins with a line or in it makes that line a boundary line. */
  lemma DelimiterBeginsAtLine(boundary: string, line: string, rest: string, k: nat)
    requires '\r' !in boundary && !Occurs(CRLF, line) && k < 2 + |line|
    requires OccursAt(Delimiter(boundary), CRLF + line + CRLF + rest, k)
    ensures "--" + boundary <= line
  {
    var d, s, after := Delimiter(boundary), CRLF + line + CRLF + rest, line + CRLF + rest;
    DelimiterBegins(boundary, s, k);
    assert forall i :: 0 <= i < |after| ==> s[i + 2] == after[i];
    if k >= 2 {
      assert after[k - 2] == s[k] && after[k - 1] == s[k + 1];
      BreakAt(after, k - 2);
      NoBreakInLine(line, rest, k - 2);
    }
    assert k == 0;
    BeginsLine(boundary, line, rest);
  }

  lemma CharactersAgree(d: string, s: string, i: nat)
    requires OccursAt(d, s, 0) && i < |d|
    ensures i < |s| && s[i] == d[i]
  {
    assert s[0..|d|][i] == s[i];
  }

  lemma BeginsLine(boundary: string, line: string, rest: string)
    requires '\r' !in boundary && OccursAt(Delimiter(boundary), CRLF + line + CRLF + rest, 0)
    ensures "--" + boundary <= line
  {
    var d, s, dashes := Delimiter(boundary), CRLF + line + CRLF + rest, "--" + boundary;
    assert d == CRLF + dashes && s == CRLF + (line + CRLF + rest);
    if |line| < |dashes| {
      assert dashes[|line|] != '\r';
      CharactersAgree(d, s, |line| + 2);
    } else {
      forall i | 0 <= i < |dashes|
        ensures dashes[i] == line[i]
      {
        CharactersAgree(d, s, i + 2);
      }
    }
  }

  /** A text begins with a boundary line, or has one after its first line break. */
  lemma BoundaryInFirstLine(boundary: string, line: string, rest: string)
    requires '\r' !in boundary && !Occurs(CRLF, line)
    ensures Occurs(Delimiter(boundary), CRLF + (line + CRLF + rest)) <==>
            "--" + boundary <= line || Occurs(Delimiter(boundary), CRLF + rest)
  {
    var d, s := Delimiter(boundary), CRLF + (line + CRLF + rest);
    assert s == (CRLF + line) + (CRLF + rest) == CRLF + line + CRLF + rest;
    if k: nat :| OccursAt(d, s, k) {
      if k >= 2 + |line| {
        OccursAtSplit(d, CRLF + line, CRLF + rest, k);
      } else {
        DelimiterBeginsAtLine(boundary, line, rest, k);
      }
    }
    if "--" + boundary <= line {
      DelimiterAtStart(boundary, line + CRLF + rest);
    }
    if Occurs(d, CRLF + rest) {
      TakeDrop(CRLF + line, CRLF + rest);
      OccursInSuffix(d, s, 2 + |line|);
    }
  }

  lemma DelimiterAtStart(boundary: string, s: string)
    ensures OccursAt(Delimiter(boundary), CRLF + s, 0) <==> "--" + boundary <= s
  {
    var d, dashes := Delimiter(boundary), "--" + boundary;
    assert d == CRLF + dashes;
    if dashes <= s {
      assert CRLF + s == d + s[|dashes|..];
    }
    if OccursAt(d, CRLF + s, 0) {
      assert (CRLF + s)[..|d|] == d && s[..|dashes|] == (CRLF + s)[2..|d|] == d[2..] == dashes;
    }
  }

  /** A text of one line has a boundary line exactly when it is one. */
  lemma BoundaryInOnlyLine(boundary: string, line: string)
    requires !Occurs(CRLF, line)
    ensures Occurs(Delimiter(boundary), CRLF + line) <==> "--" + boundary <= line
  {
    var d, s := Delimiter(boundary), CRLF + line;
    DelimiterAtStart(boundary, line);
    if k: nat :| OccursAt(d, s, k) {
      DelimiterBegins(boundary, s, k);
      if k >= 2 {
        assert line[k - 2] == s[k] && line[k - 1] == s[k + 1];
        BreakAt(line, k - 2);
      }
    }
  }

  /** No line, as split at CRLF, starts with the two dashes and the boundary. */
  lemma {:induction false} NoBoundaryLineMeaning(boundary: string, s: string)
    requires '\r' !in boundary
    ensures NoBoundaryLine(boundary, s) <==>
            forall line :: line in Split("\r\n", s) ==> !("--" + boundary <= line)
    decreases |s|
  {
    SplitFirst(CRLF, s);
    var r := Find(CRLF, s);
    if r == None {
      BoundaryInOnlyLine(boundary, s);
      assert s in Split(CRLF, s);
      hide Split, Occurs, Find, OccursAt, Delimiter;
    } else {
      var k, rest := r.value, s[r.value + 2..];
      PrefixBeforeFirst(CRLF, s, k);
      assert s == s[..k] + CRLF + rest;
      BoundaryInFirstLine(boundary, s[..k], rest);
      NoBoundaryLineMeaning(boundary, rest);
      NoneBegins("--" + boundary, s[..k], Split(CRLF, rest));
      hide Split, Occurs, Find, OccursAt, Delimiter;
    }
  }

  lemma NoneBegins(start: string, first: string, others: seq<string>)
    ensures (forall line :: line in [first] + others ==> !(start <= line)) <==>
            !(start <= first) && forall line :: line in others ==> !(start <= line)
  {
    assert forall line :: line in others ==> line in [first] + others;
    assert first in [first] + others;
  }

  ghost predicate HasBreak(s: string) {
    exists i :: 0 <= i < |s| - 1 && s[i] == '\r' && s[i + 1] == '\n'
  }

  lemma BreakMeaning(s: string)
    ensures Occurs(CRLF, s) <==> HasBreak(s)
  {
    if k: nat :| OccursAt(CRLF, s, k) {
      var two := s[k..k + 2];
      assert two[0] == s[k] && two[1] == s[k + 1];
    }
    if i :| 0 <= i < |s| - 1 && s[i] == '\r' && s[i + 1] == '\n' {
      BreakAt(s, i);
    }
  }

  lemma QuoteMeaning(s: string)
    ensures Occurs("\"", s) <==> '"' in s
  {
    if k: nat :| OccursAt("\"", s, k) {
      OccurrenceHasFirst("\"", s, k);
    }
    if i :| 0 <= i < |s| && s[i] == '"' {
      assert s[i..i + 1] == "\"";
      assert OccursAt("\"", s, i);
    }
  }

  /** What a part must be like to be transmitted. */
  lemma EncodableMeaning(boundary: string, p: Part)
    requires '\r' !in boundary
    ensures Encodable(boundary, p) <==>
            && '"' !in p.name && !HasBreak(p.name)
            && (p.fileName.Some? ==> '"' !in p.fileName.value && !HasBreak(p.fileName.value))
            && (p.contentType.Some? ==> !HasBreak(p.contentType.value))
            && forall line :: line in Split("\r\n", p.content) ==> !("--" + boundary <= line)
  {
    QuoteMeaning(p.name);
    BreakMeaning(p.name);
    if p.fileName.Some? {
      QuoteMeaning(p.fileName.value);
      BreakMeaning(p.fileName.value);
    }
    if p.contentType.Some? {
      BreakMeaning(p.contentType.value);
    }
    NoBoundaryLineMeaning(boundary, p.content);
    hide Occurs, Split, NoBoundaryLine, HasBreak;
  }

  // ----- the headers read back

  lemma CrlfIsBorderless()
    ensures Borderless(CRLF)
  {
    FirstOnlyIsBorderless(CRLF);
  }

  lemma {:induction false} ParseHeadedUndoesPrint(lines: seq<string>, content: string)
    requires forall i :: 0 <= i < |lines| ==> lines[i] != "" && !Occurs(CRLF, lines[i])
    ensures ParseHeaded(PrintHeaded(lines, content)) == Some((lines, content))
    decreases lines
  {
    var s := PrintHeaded(lines, content);
    CrlfIsBorderless();
    if lines == [] {
      FindAfter(CRLF, "", content);
      assert "" + CRLF + content == s && s[2..] == content;
    } else {
      var rest := PrintHeaded(lines[1..], content);
      ParseHeadedUndoesPrint(lines[1..], content);
      FindAfter(CRLF, lines[0], rest);
      assert s[..|lines[0]|] == lines[0] && s[|lines[0]| + 2..] == rest;
      assert lines == [lines[0]] + lines[1..];
    }
  }

  lemma QuotedReadsBack(v: string, rest: string)
    requires !Occurs("\"", v)
    ensures ParseQuoted(v + "\"" + rest) == Some((v, rest))
  {
    FirstOnlyIsBorderless("\"");
    FindAfter("\"", v, rest);
    var s := v + "\"" + rest;
    assert s[..|v|] == v && s[|v| + 1..] == rest;
  }

  lemma DispositionReadsBack(p: Part)
    requires Quotable(p.name) && (p.fileName.Some? ==> Quotable(p.fileName.value))
    ensures ParseDisposition(DispositionOf(p)) == Some((p.name, p.fileName))
  {
    QuotedReadsBack(p.name, FileNameOf(p));
    TakeDrop(FORM_DATA, p.name + "\"" + FileNameOf(p));
    if p.fileName.Some? {
      var f := p.fileName.value;
      QuotedReadsBack(f, "");
      assert f + "\"" + "" == f + "\"";
      TakeDrop(FILE_NAME, f + "\"");
    }
    hide ParseQuoted, Quotable;
  }

  /** Two texts without line breaks meet without making one, unless CR meets LF. */
  lemma NoBreakAtSeam(x: string, y: string)
    requires !Occurs(CRLF, x) && !Occurs(CRLF, y)
    requires x == "" || y == "" || x[|x| - 1] != '\r' || y[0] != '\n'
    ensures !Occurs(CRLF, x + y)
  {
    forall k: nat
      ensures !OccursAt(CRLF, x + y, k)
    {
      if OccursAt(CRLF, x + y, k) {
        assert (x + y)[k..k + 2][0] == (x + y)[k] && (x + y)[k..k + 2][1] == (x + y)[k + 1];
        OccursAtSplit(CRLF, x, y, k);
      }
    }
  }

  lemma NoCrNoBreak(x: string)
    requires '\r' !in x
    ensures !Occurs(CRLF, x)
  {
    forall k: nat
      ensures !OccursAt(CRLF, x, k)
    {
      if OccursAt(CRLF, x, k) {
        OccurrenceHasFirst(CRLF, x, k);
      }
    }
  }

  lemma DispositionHasNoBreak(p: Part)
    requires Quotable(p.name) && (p.fileName.Some? ==> Quotable(p.fileName.value))
    ensures !Occurs(CRLF, DispositionOf(p))
  {
    NoCrNoBreak(FORM_DATA);
    NoCrNoBreak("\"");
    NoCrNoBreak(FILE_NAME);
    NoBreakAtSeam(p.name, "\"");
    if p.fileName.Some? {
      var f := p.fileName.value;
      NoBreakAtSeam(f, "\"");
      NoBreakAtSeam(FILE_NAME, f + "\"");
    } else {
      NoCrNoBreak("");
    }
    hide Occurs;
    NoBreakAtSeam(p.name + "\"", FileNameOf(p));
    NoBreakAtSeam(FORM_DATA, p.name + "\"" + FileNameOf(p));
  }

  lemma HeadersHaveNoBreak(p: Part, boundary: string)
    requires Encodable(boundary, p)
    ensures forall i :: 0 <= i < |HeadersOf(p)| ==>
      HeadersOf(p)[i] != "" && !Occurs(CRLF, HeadersOf(p)[i]) && !("--" <= HeadersOf(p)[i])
  {
    DispositionHasNoBreak(p);
    hide DispositionOf;
    NoCrNoBreak(DISPOSITION);
    NoCrNoBreak(CONTENT_TYPE);
    NoBreakAtSeam(DISPOSITION, DispositionOf(p));
    assert forall i :: 0 <= i < |HeadersOf(p)| ==> HeadersOf(p)[i] != "" && HeadersOf(p)[i][0] == 'C';
    if p.contentType.Some? {
      NoBreakAtSeam(CONTENT_TYPE, p.contentType.value);
    }
  }

  lemma HeadersReadBack(p: Part)
    ensures FindHeader(HeadersOf(p), DISPOSITION) == Some(DispositionOf(p))
    ensures FindHeader(HeadersOf(p), CONTENT_TYPE) == p.contentType
  {
    hide DispositionOf;
    var lines := HeadersOf(p);
    assert DISPOSITION[8] != CONTENT_TYPE[8];
    assert lines[0][|DISPOSITION|..] == DispositionOf(p);
    assert lines[0][8] == DISPOSITION[8];
    assert !(CONTENT_TYPE <= lines[0]);
    if p.contentType.Some? {
      assert lines[1..] == [CONTENT_TYPE + p.contentType.value];
      assert (CONTENT_TYPE + p.contentType.value)[|CONTENT_TYPE|..] == p.contentType.value;
    } else {
      assert lines[1..] == [];
    }
  }

  lemma PartReadsBack(boundary: string, p: Part)
    requires Encodable(boundary, p)
    ensures ParsePart(PrintPart(p)) == Some(p)
  {
    HeadersHaveNoBreak(p, boundary);
    ParseHeadedUndoesPrint(HeadersOf(p), p.content);
    HeadersReadBack(p);
    DispositionReadsBack(p);
    hide HeadersOf, ParseHeaded, PrintHeaded, FindHeader, ParseDisposition, DispositionOf;
  }

  // ----- the body read back

  /** What stands between the delimiters, the close-delimiter included. */
  function PiecesOf(parts: seq<Part>): (pieces: seq<string>)
    ensures |pieces| == |parts| + 1
  {
    if parts == [] then ["--" + CRLF] else [CRLF + PrintPart(parts[0])] + PiecesOf(parts[1..])
  }

  lemma {:induction false} BodyIsJoin(boundary: string, parts: seq<Part>)
    ensures CRLF + PrintBody(boundary, parts) == Delimiter(boundary) + Join(Delimiter(boundary), PiecesOf(parts))
    decreases parts
  {
    hide PrintPart;
    if parts == [] {
    } else {
      var d, pieces := Delimiter(boundary), PiecesOf(parts[1..]);
      BodyIsJoin(boundary, parts[1..]);
      JoinCons(d, CRLF + PrintPart(parts[0]), pieces);
      Regroup(boundary, PrintPart(parts[0]), PrintBody(boundary, parts[1..]), Join(d, pieces));
    }
  }

  lemma Regroup(boundary: string, part: string, body: string, joined: string)
    requires CRLF + body == Delimiter(boundary) + joined
    ensures CRLF + ("--" + boundary + CRLF + part + CRLF + body)
         == Delimiter(boundary) + (CRLF + part + Delimiter(boundary) + joined)
  {
    var d := Delimiter(boundary);
    assert CRLF + ("--" + boundary + CRLF + part + CRLF + body) == d + CRLF + part + (CRLF + body);
    assert d + (CRLF + part + d + joined) == d + CRLF + part + (d + joined);
  }

  lemma {:induction false} PiecesHideNoDelimiter(boundary: string, parts: seq<Part>)
    requires AllEncodable(boundary, parts)
    ensures forall i :: 0 <= i <= |parts| ==> !Occurs(Delimiter(boundary), PiecesOf(parts)[i])
    decreases parts
  {
    var d := Delimiter(boundary);
    if parts == [] {
      forall k: nat
        ensures !OccursAt(d, "--" + CRLF, k)
      {
        if OccursAt(d, "--" + CRLF, k) {
          OccurrenceHasFirst(d, "--" + CRLF, k);
        }
      }
    } else {
      PiecesHideNoDelimiter(boundary, parts[1..]);
      HeadersHaveNoBreak(parts[0], boundary);
      HeadedHidesNoDelimiter(boundary, HeadersOf(parts[0]), parts[0].content);
    }
  }

  /** The body falls apart at its boundary lines only: one opens each part, and the last one closes. */
  lemma BodySplitsAtParts(boundary: string, parts: seq<Part>)
    requires '\r' !in boundary && AllEncodable(boundary, parts)
    ensures Split(Delimiter(boundary), CRLF + PrintBody(boundary, parts)) == [""] + PiecesOf(parts)
  {
    var d, pieces := Delimiter(boundary), [""] + PiecesOf(parts);
    PiecesHideNoDelimiter(boundary, parts);
    DelimiterIsBorderless(boundary);
    hide Borderless, PrintBody, PiecesOf, Occurs, Join, Split, Delimiter;
    BodyIsJoin(boundary, parts);
    JoinCons(d, "", PiecesOf(parts));
    assert "" + d == d;
    SplitUndoesJoin(d, pieces);
  }

  lemma NoPadding(s: string)
    requires CRLF <= s
    ensures SkipPadding(s) == s && !("--" <= s)
  {
  }

  lemma PieceReadsBack(text: string, p: Part, rest: seq<string>, parts: seq<Part>)
    requires ParsePart(text) == Some(p) && ParsePieces(rest) == Some(parts)
    ensures ParsePieces([CRLF + text] + rest) == Some([p] + parts)
  {
    hide ParsePart;
    assert ([CRLF + text] + rest)[1..] == rest;
    TakeDrop(CRLF, text);
    NoPadding(CRLF + text);
  }

  lemma CloseReadsBack()
    ensures ParsePieces(["--" + CRLF]) == Some([])
  {
    TakeDrop("--", CRLF);
    NoPadding(CRLF);
  }

  lemma {:induction false} PiecesReadBack(boundary: string, parts: seq<Part>)
    requires AllEncodable(boundary, parts)
    ensures ParsePieces(PiecesOf(parts)) == Some(parts)
    decreases parts
  {
    hide PrintPart, ParsePart, ParsePieces, Encodable;
    if parts == [] {
      CloseReadsBack();
    } else {
      PiecesReadBack(boundary, parts[1..]);
      PartReadsBack(boundary, parts[0]);
      PieceReadsBack(PrintPart(parts[0]), parts[0], PiecesOf(parts[1..]), parts[1..]);
      assert parts == [parts[0]] + parts[1..];
    }
  }

  // ----- whatever the decoder returns could have been transmitted

  /** What occurs after a line break of the text occurs in the text. */
  lemma OccursAfterBreak(d: string, s: string, k: nat)
    requires OccursAt(CRLF, s, k) && Occurs(d, CRLF + s[k + 2..])
    ensures Occurs(d, CRLF + s)
  {
    assert s[k..] == CRLF + s[k + 2..];
    OccursInSuffix(d, s, k);
    TakeDrop(CRLF, s);
    OccursInSuffix(d, CRLF + s, 2);
  }

  /** The content is the end of the text, after a line break. */
  lemma {:induction false} ParsedHeaded(d: string, s: string)
    requires ParseHeaded(s).Some?
    ensures var (lines, content) := ParseHeaded(s).value;
            && (forall i :: 0 <= i < |lines| ==> !Occurs(CRLF, lines[i]))
            && (Occurs(d, CRLF + content) ==> Occurs(d, CRLF + s))
    decreases |s|
  {
    var k := Find(CRLF, s).value;
    PrefixBeforeFirst(CRLF, s, k);
    if Occurs(d, CRLF + s[k + 2..]) {
      OccursAfterBreak(d, s, k);
    }
    hide Occurs, OccursAt;
    if k == 0 {
    } else {
      ParsedHeaded(d, s[k + 2..]);
    }
  }

  lemma {:induction false} FoundHeader(lines: seq<string>, start: string)
    requires forall i :: 0 <= i < |lines| ==> !Occurs(CRLF, lines[i])
    ensures FindHeader(lines, start).Some? ==> !Occurs(CRLF, FindHeader(lines, start).value)
    decreases lines
  {
    if lines == [] {
    } else {
      FoundHeader(lines[1..], start);
      if start <= lines[0] && Occurs(CRLF, lines[0][|start|..]) {
        OccursInSuffix(CRLF, lines[0], |start|);
      }
    }
  }

  lemma ParsedQuoted(s: string)
    requires ParseQuoted(s).Some? && !Occurs(CRLF, s)
    ensures var (v, rest) := ParseQuoted(s).value;
            Quotable(v) && !Occurs(CRLF, rest)
  {
    var k := Find("\"", s).value;
    PrefixBeforeFirst("\"", s, k);
    if Occurs(CRLF, s[..k]) {
      OccursInPrefix(CRLF, s, k);
    }
    if Occurs(CRLF, s[k + 1..]) {
      OccursInSuffix(CRLF, s, k + 1);
    }
  }

  lemma ParsedDisposition(s: string)
    requires ParseDisposition(s).Some? && !Occurs(CRLF, s)
    ensures var (name, fileName) := ParseDisposition(s).value;
            Quotable(name) && (fileName.Some? ==> Quotable(fileName.value))
  {
    hide ParseQuoted, Quotable;
    if Occurs(CRLF, s[|FORM_DATA|..]) {
      OccursInSuffix(CRLF, s, |FORM_DATA|);
    }
    ParsedQuoted(s[|FORM_DATA|..]);
    var rest := ParseQuoted(s[|FORM_DATA|..]).value.1;
    if rest != "" {
      if Occurs(CRLF, rest[|FILE_NAME|..]) {
        OccursInSuffix(CRLF, rest, |FILE_NAME|);
      }
      ParsedQuoted(rest[|FILE_NAME|..]);
    }
  }

  lemma ParsedPart(boundary: string, s: string)
    requires ParsePart(s).Some? && NoBoundaryLine(boundary, s)
    ensures Encodable(boundary, ParsePart(s).value)
  {
    hide ParseHeaded, FindHeader, ParseDisposition;
    ParsedHeaded(Delimiter(boundary), s);
    var (lines, content) := ParseHeaded(s).value;
    FoundHeader(lines, DISPOSITION);
    FoundHeader(lines, CONTENT_TYPE);
    ParsedDisposition(FindHeader(lines, DISPOSITION).value);
  }

  lemma {:induction false} ParsedPieces(boundary: string, pieces: seq<string>)
    requires ParsePieces(pieces).Some?
    requires forall i :: 0 <= i < |pieces| ==> !Occurs(Delimiter(boundary), pieces[i])
    ensures AllEncodable(boundary, ParsePieces(pieces).value)
    decreases pieces
  {
    hide ParsePart, Encodable;
    if !("--" <= pieces[0]) {
      var d, line := Delimiter(boundary), SkipPadding(pieces[0]);
      if Occurs(d, line) {
        OccursInSuffix(d, pieces[0], |pieces[0]| - |line|);
      }
      hide Occurs;
      assert line == CRLF + line[2..];
      ParsedPart(boundary, line[2..]);
      ParsedPieces(boundary, pieces[1..]);
    }
  }

  // ----- main results

  /** The decoder returns nothing that the printer could not transmit. */
  lemma DecodedIsEncodable(boundary: string, body: string)
    requires Decode(boundary, body).Some?
    ensures AllEncodable(boundary, Decode(boundary, body).value)
  {
    ParsedPieces(boundary, Split(Delimiter(boundary), CRLF + body)[1..]);
  }

  /** Decoding undoes printing exactly when no content has a line that starts with `--boundary` and
      no name a quote or a line break. */
  lemma DecodeUndoesPrintExactly(boundary: string, parts: seq<Part>)
    requires '\r' !in boundary
    ensures Decode(boundary, PrintBody(boundary, parts)) == Some(parts) <==> AllEncodable(boundary, parts)
  {
    if AllEncodable(boundary, parts) {
      BodySplitsAtParts(boundary, parts);
      PiecesReadBack(boundary, parts);
      assert ([""] + PiecesOf(parts))[1..] == PiecesOf(parts);
    }
    if Decode(boundary, PrintBody(boundary, parts)) == Some(parts) {
      DecodedIsEncodable(boundary, PrintBody(boundary, parts));
    }
  }

  /** Different forms have different bodies. */
  lemma PrintIsInjective(boundary: string, parts: seq<Part>, others: seq<Part>)
    requires '\r' !in boundary && AllEncodable(boundary, parts) && AllEncodable(boundary, others)
    requires PrintBody(boundary, parts) == PrintBody(boundary, others)
    ensures parts == others
  {
    DecodeUndoesPrintExactly(boundary, parts);
    DecodeUndoesPrintExactly(boundary, others);
  }
}
