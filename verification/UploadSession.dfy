/** One run of the uploader: from the command line to the requests sent and the exit code. */
module UploadSession {
  import opened Optional
  import opened Text
  import opened Multipart
  import opened Uploader

  // ----- stripping white space

  predicate IsSpace(c: char) {
    c == ' ' || c == '\t' || c == '\n' || c == '\r' || c == '\U{B}' || c == '\U{C}'
  }

  ghost predicate AllSpace(s: string) {
    forall c :: c in s ==> IsSpace(c)
  }

  function LStrip(s: string): string {
    if s != "" && IsSpace(s[0]) then LStrip(s[1..]) else s
  }

  function RStrip(s: string): string {
    if s != "" && IsSpace(s[|s| - 1]) then RStrip(s[..|s| - 1]) else s
  }

  lemma {:induction false} LStripMeaning(s: string)
    ensures var r := LStrip(s);
            && |r| <= |s| && s[|s| - |r|..] == r && AllSpace(s[..|s| - |r|])
            && (r != "" ==> !IsSpace(r[0]))
    decreases s
  {
    if s != "" && IsSpace(s[0]) {
      LStripMeaning(s[1..]);
      var n := |s| - |LStrip(s)|;
      assert s[..n] == [s[0]] + s[1..][..n - 1];
    }
  }

  lemma {:induction false} RStripMeaning(s: string)
    ensures var r := RStrip(s);
            r <= s && AllSpace(s[|r|..]) && (r != "" ==> !IsSpace(r[|r| - 1]))
    decreases s
  {
    if s != "" && IsSpace(s[|s| - 1]) {
      var n := |s| - 1;
      RStripMeaning(s[..n]);
      assert s[|RStrip(s)|..] == s[..n][|RStrip(s)|..] + [s[n]];
    }
  }

  /** l.strip() */
  function Strip(s: string): string {
    RStrip(LStrip(s))
  }

  /** `r` is what is left of `s` when white space before and after it is dropped. */
  ghost predicate InSpace(r: string, s: string, start: nat) {
    && start + |r| <= |s| && r == s[start..start + |r|]
    && AllSpace(s[..start]) && AllSpace(s[start + |r|..])
  }

  /** Stripping takes white space off both ends, and all of it. */
  lemma StripMeaning(s: string)
    ensures exists start: nat :: InSpace(Strip(s), s, start)
    ensures Strip(s) != "" ==> !IsSpace(Strip(s)[0]) && !IsSpace(Strip(s)[|Strip(s)| - 1])
  {
    var l, r := LStrip(s), Strip(s);
    LStripMeaning(s);
    RStripMeaning(l);
    var start := |s| - |l|;
    hide LStrip, RStrip;
    assert s[start..start + |r|] == l[..|r|];
    assert s[start + |r|..] == l[|r|..];
    assert InSpace(r, s, start);
  }

  /** White space is these six characters and no other. */
  lemma SpaceMeaning(c: char)
    ensures IsSpace(c) <==> c in " \t\n\r\U{B}\U{C}"
  {
  }

  lemma SpaceBefore(c: char, s: string)
    ensures IsSpace(c) ==> LStrip([c] + s) == LStrip(s)
    ensures !IsSpace(c) ==> LStrip([c] + s) == [c] + s
  {
    assert ([c] + s)[1..] == s;
  }

  lemma SpaceBehind(s: string, c: char)
    ensures IsSpace(c) ==> RStrip(s + [c]) == RStrip(s)
    ensures !IsSpace(c) ==> RStrip(s + [c]) == s + [c]
  {
    assert (s + [c])[..|s|] == s;
  }

  lemma {:induction false} LStripPadded(before: string, rest: string)
    requires AllSpace(before)
    ensures LStrip(before + rest) == LStrip(rest)
    decreases before
  {
    hide IsSpace, LStrip;
    if before == "" {
      assert before + rest == rest;
    } else {
      LStripPadded(before[1..], rest);
      SpaceBefore(before[0], before[1..] + rest);
      assert before + rest == [before[0]] + (before[1..] + rest);
    }
  }

  lemma {:induction false} RStripPadded(text: string, after: string)
    requires AllSpace(after)
    ensures RStrip(text + after) == RStrip(text)
    decreases after
  {
    hide IsSpace, RStrip;
    if after == "" {
      assert text + after == text;
    } else {
      var n := |after| - 1;
      RStripPadded(text, after[..n]);
      SpaceBehind(text + after[..n], after[n]);
      assert text + after == text + after[..n] + [after[n]];
    }
  }

  lemma RStripWord(word: string, after: string)
    requires AllSpace(after) && (word != "" ==> !IsSpace(word[|word| - 1]))
    ensures RStrip(word + after) == word
  {
    RStripPadded(word, after);
    assert RStrip("") == "";
    hide IsSpace, RStrip;
    if word != "" {
      var n := |word| - 1;
      SpaceBehind(word[..n], word[n]);
      assert word[..n] + [word[n]] == word;
    }
  }

  lemma LStripWord(before: string, text: string)
    requires AllSpace(before) && text != "" && !IsSpace(text[0])
    ensures LStrip(before + text) == text
  {
    LStripPadded(before, text);
  }

  lemma LStripSpace(s: string)
    requires AllSpace(s)
    ensures LStrip(s) == ""
  {
    LStripPadded(s, "");
    hide LStrip;
    assert s + "" == s;
  }

  lemma AllSpaceAppend(s: string, t: string)
    requires AllSpace(s) && AllSpace(t)
    ensures AllSpace(s + t)
  {
    hide IsSpace;
  }

  lemma Regrouped(x: string, y: string, z: string)
    ensures x + y + z == x + (y + z)
    ensures y == "" ==> x + y + z == x + z
  {
  }

  lemma StripIs(s: string, l: string, r: string)
    requires LStrip(s) == l && RStrip(l) == r
    ensures Strip(s) == r
  {
  }

  lemma StripWord(before: string, word: string, after: string)
    requires AllSpace(before) && AllSpace(after)
    requires word != "" ==> !IsSpace(word[0]) && !IsSpace(word[|word| - 1])
    ensures Strip(before + word + after) == word
    ensures RStrip(word + after) == word
  {
    Regrouped(before, word, after);
    RStripWord(word, after);
    if word == "" {
      AllSpaceAppend(before, after);
      LStripSpace(before + after);
      RStripWord("", "");
      hide *;
      StripIs(before + word + after, "", "");
    } else {
      LStripWord(before, word + after);
      hide *;
      StripIs(before + word + after, word + after, word);
    }
  }

  lemma AllSpaceMeaning(s: string)
    ensures AllSpace(s) <==> forall c :: c in s ==> c in " \t\n\r\U{B}\U{C}"
  {
    forall c | c in s
      ensures IsSpace(c) <==> c in " \t\n\r\U{B}\U{C}"
    {
      SpaceMeaning(c);
    }
    hide IsSpace;
  }

  /** A word with white space around it is stripped to the word, and with white space behind it is
      right-stripped to the word. */
  lemma StripPadded(before: string, word: string, after: string)
    requires forall c :: c in before ==> c in " \t\n\r\U{B}\U{C}"
    requires forall c :: c in after ==> c in " \t\n\r\U{B}\U{C}"
    requires word != "" ==>
      word[0] !in " \t\n\r\U{B}\U{C}" && word[|word| - 1] !in " \t\n\r\U{B}\U{C}"
    ensures Strip(before + word + after) == word
    ensures RStrip(word + after) == word
  {
    AllSpaceMeaning(before);
    AllSpaceMeaning(after);
    if word != "" {
      SpaceMeaning(word[0]);
      SpaceMeaning(word[|word| - 1]);
    }
    hide IsSpace, AllSpace, Strip, RStrip;
    StripWord(before, word, after);
  }

  // ----- the login

  const DOMAIN: string := "@gmail.com"

  predicate EndsWith(s: string, tail: string) {
    |s| >= |tail| && s[|s| - |tail|..] == tail
  }

  /** The user part of user@gmail.com; any other name is used as it is. */
  function LoginOf(userName: string): string {
    if EndsWith(userName, DOMAIN) then
      assert OccursAt(DOMAIN, userName, |userName| - |DOMAIN|);
      userName[..Find(DOMAIN, userName).value]
    else userName
  }

  /** What is left is never a full address again. */
  lemma LoginIsNoAddress(userName: string)
    ensures var login := LoginOf(userName);
            |login| >= 10 ==> login[|login| - 10..] != "@gmail.com"
  {
    if EndsWith(userName, DOMAIN) {
      assert OccursAt(DOMAIN, userName, |userName| - |DOMAIN|);
      var login := LoginOf(userName);
      PrefixBeforeFirst(DOMAIN, userName, |login|);
      if EndsWith(login, DOMAIN) {
        assert OccursAt(DOMAIN, login, |login| - |DOMAIN|);
      }
    }
  }

  /** A full address logs in as its user part, exactly when that part does not hold the domain too;
      what is no full address logs in as it is. */
  lemma LoginIsUserPart(user: string)
    ensures LoginOf(user + "@gmail.com") == user <==> !Occurs("@gmail.com", user)
    ensures |user| < 10 || user[|user| - 10..] != "@gmail.com" ==> LoginOf(user) == user
  {
    FirstOnlyIsBorderless(DOMAIN);
    TakeDrop(user, DOMAIN);
    var full := user + DOMAIN;
    assert OccursAt(DOMAIN, full, |user|);
    PrefixBeforeFirst(DOMAIN, full, |LoginOf(full)|);
    if !Occurs(DOMAIN, user) {
      FindAfter(DOMAIN, user, "");
      assert user + DOMAIN + "" == full;
    }
  }

  /** An address whose user part holds the domain loses more than its end. */
  lemma LoginCutShort()
    ensures LoginOf("a@gmail.com@gmail.com") == "a"
  {
    var user, full := "a@gmail.com", "a@gmail.com@gmail.com";
    assert full == user + DOMAIN && user == "a" + DOMAIN;
    NoAt("a");
    FirstOnlyIsBorderless(DOMAIN);
    FindAfter(DOMAIN, "a", DOMAIN);
    TakeDrop(user, DOMAIN);
    assert full[..1] == "a";
  }

  lemma NoAt(s: string)
    requires '@' !in s
    ensures !Occurs(DOMAIN, s)
  {
    forall k: nat
      ensures !OccursAt(DOMAIN, s, k)
    {
      if OccursAt(DOMAIN, s, k) {
        OccurrenceHasFirst(DOMAIN, s, k);
      }
    }
  }

  // ----- one upload

  /** What the server answers: status, reason, and the Location header if there is one. */
  datatype Reply = Reply(status: int, reason: string, location: Option<string>)

  /** What upload returns: status, reason, and the file's URL if the server created it. */
  datatype Outcome = Outcome(status: int, reason: string, url: Option<string>)

  /** `credentials` is what the Authorization header carries, before its base64 coding. */
  datatype Request = Request(host: string, credentials: string, contentType: string, body: string)

  const UNAUTHORIZED := 401
  const FORBIDDEN := 403

  /** What the script is asked to upload. */
  datatype Job = Job(file: File, project: string, summary: string, labels: Option<seq<string>>)

  function LabelFields(labels: seq<string>): (fields: seq<Field>)
    ensures |fields| == |labels|
    ensures forall i :: 0 <= i < |labels| ==> fields[i] == ("label", Strip(labels[i]))
  {
    seq(|labels|, i requires 0 <= i < |labels| => ("label", Strip(labels[i])))
  }

  /** The summary, then the labels. */
  function FieldsOf(job: Job): seq<Field> {
    [("summary", job.summary)] + match job.labels case None => [] case Some(labels) => LabelFields(labels)
  }

  function RequestOf(job: Job, userName: string, password: string): Request {
    Request(job.project + ".googlecode.com", LoginOf(userName) + ":" + password,
            "multipart/form-data; boundary=" + BOUNDARY, PrintBody(BOUNDARY, FormParts(FieldsOf(job), job.file)))
  }

  method Upload(job: Job, userName: string, password: string, reply: Reply)
    returns (sent: Request, outcome: Outcome)
    ensures sent == RequestOf(job, userName, password)
    ensures sent.host == job.project + ".googlecode.com"
    ensures sent.credentials == LoginOf(userName) + ":" + password
    ensures outcome == Outcome(reply.status, reply.reason, if reply.status == 201 then reply.location else None)
  {
    var login := LoginOf(userName);
    var formFields := [("summary", job.summary)];
    if job.labels.Some? {
      formFields := formFields + LabelFields(job.labels.value);
    } else {
      assert FieldsOf(job) == formFields;
    }
    var contentType, body := EncodeUploadRequest(formFields, job.file);
    var authToken := login + ":" + password;
    sent := Request(job.project + ".googlecode.com", authToken, contentType, body);
    var location := None;
    if reply.status == 201 {
      location := reply.location;
    }
    outcome := Outcome(reply.status, reply.reason, location);
  }

  /** How the server reads the credentials of HTTP Basic authentication: up to the first colon, and
      after it (section 2 of RFC 2617). */
  function ReadCredentials(r: Request): Option<(string, string)> {
    match Find(":", r.credentials)
    case None => None
    case Some(k) => Some((r.credentials[..k], r.credentials[k + 1..]))
  }

  /** The server reads the login and the password exactly when the login holds no colon. */
  lemma CredentialsReadBackExactly(job: Job, userName: string, password: string)
    ensures ReadCredentials(RequestOf(job, userName, password)) == Some((LoginOf(userName), password))
            <==> ':' !in LoginOf(userName)
  {
    var login := LoginOf(userName);
    hide LoginOf, PrintBody, FormParts, FieldsOf;
    var credentials := RequestOf(job, userName, password).credentials;
    if ':' !in login {
      NoCharacter(":", login);
      FirstOnlyIsBorderless(":");
      FindAfter(":", login, password);
      assert credentials[..|login|] == login && credentials[|login| + 1..] == password;
    } else {
      var k :| 0 <= k < |login| && login[k] == ':';
      assert credentials[k..k + 1] == ":";
      assert OccursAt(":", credentials, k);
      assert Find(":", credentials).value <= k;
    }
  }

  /** How the server reads a request: the media type up to the semicolon, which must be that of a
      form, the boundary from the parameter after it, then the parts. */
  function ReadRequest(r: Request): Option<seq<Part>> {
    match Find(";", r.contentType)
    case None => None
    case Some(k) =>
      if r.contentType[..k] != "multipart/form-data" then None
      else
        match BoundaryOf(r.contentType[k + 1..])
        case None => None
        case Some(boundary) => Decode(boundary, r.body)
  }

  function BoundaryOf(parameter: string): Option<string> {
    if " boundary=" <= parameter then Some(parameter[10..]) else None
  }

  lemma FormIsRead(r: Request, boundary: string)
    requires r.contentType == "multipart/form-data; boundary=" + boundary
    ensures ReadRequest(r) == Decode(boundary, r.body)
  {
    var media, parameter := "multipart/form-data", " boundary=" + boundary;
    NoCharacter(";", media);
    FirstOnlyIsBorderless(";");
    FindAfter(";", media, parameter);
    ContentTypeParts(boundary);
    hide Decode, Find, Borderless, Occurs;
  }

  lemma ContentTypeParts(boundary: string)
    ensures var media, parameter := "multipart/form-data", " boundary=" + boundary;
            var all := "multipart/form-data; boundary=" + boundary;
            && all == media + ";" + parameter && all[..19] == media && all[20..] == parameter
            && BoundaryOf(parameter) == Some(boundary)
  {
    ContentTypeOpens();
    MediaAndParameter("multipart/form-data", ";", " boundary=", boundary);
    TakeDrop(" boundary=", boundary);
  }

  lemma ContentTypeOpens()
    ensures "multipart/form-data" + ";" + " boundary=" == "multipart/form-data; boundary="
  {
  }

  lemma MediaAndParameter(media: string, semicolon: string, key: string, value: string)
    ensures var all, n := media + semicolon + key + value, |media + semicolon|;
            && all == media + semicolon + (key + value)
            && all[..|media|] == media && all[n..] == key + value
  {
  }

  /** The parts a job amounts to: the summary, each label without the white space around it, the file. */
  function PartsOf(job: Job): seq<Part> {
    [Part("summary", None, None, job.summary)] + LabelParts(job.labels) + [FilePart(job.file)]
  }

  function LabelParts(labels: Option<seq<string>>): (parts: seq<Part>)
    ensures labels == None ==> parts == []
    ensures labels.Some? ==> |parts| == |labels.value|
    ensures labels.Some? ==> forall i :: 0 <= i < |parts| ==>
      parts[i] == Part("label", None, None, Strip(labels.value[i]))
  {
    match labels
    case None => []
    case Some(ls) => seq(|ls|, i requires 0 <= i < |ls| => Part("label", None, None, Strip(ls[i])))
  }

  /** No line of the summary, of a stripped label or of the file starts with the boundary line, and
      the file name has neither quotes nor line breaks. */
  ghost predicate Sendable(job: Job) {
    && NoBoundaryLine(BOUNDARY, job.summary)
    && (job.labels.Some? ==> forall i :: 0 <= i < |job.labels.value| ==>
          NoBoundaryLine(BOUNDARY, Strip(job.labels.value[i])))
    && Quotable(job.file.name)
    && NoBoundaryLine(BOUNDARY, job.file.content)
  }

  lemma PartsOfFields(job: Job)
    ensures FormParts(FieldsOf(job), job.file) == PartsOf(job)
  {
  }

  lemma FixedNames()
    ensures Quotable("summary") && Quotable("label")
  {
    NoCrNoBreak("summary");
    NoQuote("summary");
    NoCrNoBreak("label");
    NoQuote("label");
  }

  lemma LabelsTransmissible(labels: seq<string>)
    ensures (forall f :: f in LabelFields(labels) ==> FieldTransmissible(f)) <==>
            forall i :: 0 <= i < |labels| ==> NoBoundaryLine(BOUNDARY, Strip(labels[i]))
  {
    FixedNames();
    hide Quotable, NoBoundaryLine, Strip;
    forall i | 0 <= i < |labels|
      ensures ("label", Strip(labels[i])) in LabelFields(labels)
      ensures FieldTransmissible(("label", Strip(labels[i]))) <==> NoBoundaryLine(BOUNDARY, Strip(labels[i]))
    {
      assert LabelFields(labels)[i] == ("label", Strip(labels[i]));
    }
  }

  lemma SendableIsTransmissible(job: Job)
    ensures Sendable(job) <==> Transmissible(FieldsOf(job), job.file)
  {
    FixedNames();
    hide Quotable, NoBoundaryLine, Strip;
    var fields, labels := FieldsOf(job), match job.labels case None => [] case Some(ls) => ls;
    LabelsTransmissible(labels);
    assert FieldTransmissible(("summary", job.summary)) <==> NoBoundaryLine(BOUNDARY, job.summary);
    hide FieldTransmissible;
    assert fields == [("summary", job.summary)] + LabelFields(labels);
    hide FieldsOf, LabelFields;
    ForAllAppended(("summary", job.summary), LabelFields(labels));
  }

  lemma ForAllAppended(first: Field, rest: seq<Field>)
    ensures (forall i :: 0 <= i < |[first] + rest| ==> FieldTransmissible(([first] + rest)[i])) <==>
            FieldTransmissible(first) && forall f :: f in rest ==> FieldTransmissible(f)
  {
    hide FieldTransmissible;
    var fields := [first] + rest;
    assert fields[0] == first;
    assert forall i :: 0 <= i < |rest| ==> fields[i + 1] == rest[i];
  }

  /** Whatever the credentials, the server reads the job off the request exactly when it is sendable. */
  lemma RequestReadsBackExactly(job: Job, userName: string, password: string)
    ensures ReadRequest(RequestOf(job, userName, password)) == Some(PartsOf(job)) <==> Sendable(job)
  {
    hide Decode, PrintBody, FormParts, PartsOf, Sendable, Transmissible, LoginOf, ReadRequest;
    FormIsRead(RequestOf(job, userName, password), BOUNDARY);
    PartsOfFields(job);
    SendableIsTransmissible(job);
    FormReadsBackExactly(FieldsOf(job), job.file);
  }

  // ----- retrying with new credentials

  /** The user name of the n-th upload: the caller's at first, if there is one, and otherwise the
      next line typed, without the white space at its end. */
  function UserNameAt(given: Option<string>, lines: nat -> string, n: nat): string {
    match given
    case None => RStrip(lines(n))
    case Some(v) => if n == 0 then v else RStrip(lines(n - 1))
  }

  /** The password of the n-th upload, likewise. */
  function PasswordAt(given: Option<string>, typed: nat -> string, n: nat): string {
    match given
    case None => typed(n)
    case Some(v) => if n == 0 then v else typed(n - 1)
  }

  lemma SentForJob(r: Request, job: Job, userName: string, password: string)
    requires r == RequestOf(job, userName, password)
    ensures r.host == job.project + ".googlecode.com"
    ensures ReadRequest(r) == Some(PartsOf(job)) <==> Sendable(job)
  {
    RequestReadsBackExactly(job, userName, password);
  }

  /** The caller's values count for the first upload only; after that, both are typed again. */
  lemma TypedAgain(givenUser: Option<string>, givenPassword: Option<string>,
                   lines: nat -> string, passwords: nat -> string, n: nat)
    ensures UserNameAt(givenUser, lines, 0) == if givenUser.Some? then givenUser.value else RStrip(lines(0))
    ensures PasswordAt(givenPassword, passwords, 0) ==
            if givenPassword.Some? then givenPassword.value else passwords(0)
    ensures n > 0 ==> UserNameAt(givenUser, lines, n) == RStrip(lines(if givenUser.Some? then n - 1 else n))
    ensures n > 0 ==> PasswordAt(givenPassword, passwords, n) ==
                      passwords(if givenPassword.Some? then n - 1 else n)
  {
  }

  lemma LogTypedAgain(log: seq<Request>, job: Job, givenUser: Option<string>, givenPassword: Option<string>,
                      userLines: nat -> string, passwords: nat -> string)
    requires forall n: nat :: n < |log| ==>
      log[n] == RequestOf(job, UserNameAt(givenUser, userLines, n), PasswordAt(givenPassword, passwords, n))
    ensures log != [] ==>
      log[0] == RequestOf(job, if givenUser.Some? then givenUser.value else RStrip(userLines(0)),
                          if givenPassword.Some? then givenPassword.value else passwords(0))
    ensures forall n: nat :: 0 < n < |log| ==>
      log[n] == RequestOf(job, RStrip(userLines(if givenUser.Some? then n - 1 else n)),
                          passwords(if givenPassword.Some? then n - 1 else n))
  {
    hide RequestOf, RStrip, UserNameAt, PasswordAt;
    forall n: nat | n < |log|
      ensures n == 0 ==>
        log[n] == RequestOf(job, if givenUser.Some? then givenUser.value else RStrip(userLines(0)),
                            if givenPassword.Some? then givenPassword.value else passwords(0))
      ensures n > 0 ==>
        log[n] == RequestOf(job, RStrip(userLines(if givenUser.Some? then n - 1 else n)),
                            passwords(if givenPassword.Some? then n - 1 else n))
    {
      TypedAgain(givenUser, givenPassword, userLines, passwords, n);
    }
  }

  /** `None` stands for the error Python raises when no upload was made at all. `log` is what was
      sent; the server answers the n-th request with replies(n). The caller's user name and password
      go into the first request only; all others are typed, a new one for each request. */
  method UploadFindAuth(job: Job, givenUser: Option<string>, givenPassword: Option<string>, tries: int,
                        replies: nat -> Reply, userLines: nat -> string, passwords: nat -> string)
    returns (r: Option<Outcome>, log: seq<Request>)
    ensures tries <= 0 ==> r == None && log == []
    ensures tries > 0 ==>
      && 1 <= |log| <= tries && r.Some?
      && var last := replies(|log| - 1);
      && r.value == Outcome(last.status, last.reason, if last.status == 201 then last.location else None)
      && (forall n: nat :: n < |log| - 1 ==> replies(n).status == 401 || replies(n).status == 403)
      && (|log| < tries ==> last.status != 401 && last.status != 403)
    ensures log != [] ==>
      log[0] == RequestOf(job, if givenUser.Some? then givenUser.value else RStrip(userLines(0)),
                          if givenPassword.Some? then givenPassword.value else passwords(0))
    ensures forall n: nat :: 0 < n < |log| ==>
      log[n] == RequestOf(job, RStrip(userLines(if givenUser.Some? then n - 1 else n)),
                          passwords(if givenPassword.Some? then n - 1 else n))
  {
    hide RequestOf, RStrip, LoginOf, UserNameAt, PasswordAt;
    var userName, password, left := givenUser, givenPassword, tries;
    var usersTyped: nat, passwordsTyped: nat := 0, 0;
    r, log := None, [];
    while left > 0
      invariant left == if tries <= 0 then tries else tries - |log|
      invariant tries <= 0 ==> log == []
      invariant left >= 0 || log == []
      invariant userName == (if log == [] then givenUser else None)
      invariant password == (if log == [] then givenPassword else None)
      invariant usersTyped == |log| - (if log != [] && givenUser.Some? then 1 else 0)
      invariant passwordsTyped == |log| - (if log != [] && givenPassword.Some? then 1 else 0)
      invariant log == [] ==> r == None
      invariant log != [] ==>
        var last := replies(|log| - 1);
        r == Some(Outcome(last.status, last.reason, if last.status == 201 then last.location else None))
      invariant forall n: nat :: n < |log| ==> replies(n).status == 401 || replies(n).status == 403
      invariant forall n: nat :: n < |log| ==>
        log[n] == RequestOf(job, UserNameAt(givenUser, userLines, n), PasswordAt(givenPassword, passwords, n))
    {
      if userName == None {
        userName := Some(RStrip(userLines(usersTyped)));
        usersTyped := usersTyped + 1;
      }
      if password == None {
        password := Some(passwords(passwordsTyped));
        passwordsTyped := passwordsTyped + 1;
      }
      TypedAgain(givenUser, givenPassword, userLines, passwords, |log|);
      var reply := replies(|log|);
      var sent, outcome := Upload(job, userName.value, password.value, reply);
      r, log := Some(outcome), log + [sent];
      if reply.status == FORBIDDEN || reply.status == UNAUTHORIZED {
        userName, password := None, None;
        left := left - 1;
      } else {
        break;
      }
    }
    LogTypedAgain(log, job, givenUser, givenPassword, userLines, passwords);
  }

  // ----- from the command line

  datatype CommandLine = CommandLine(summary: Option<string>, project: Option<string>, user: Option<string>,
                             password: Option<string>, labels: Option<string>)

  predicate IsGiven(option: Option<string>) {
    option.Some? && option.value != ""
  }

  /** What Python takes for true: neither None nor the empty string. */
  lemma GivenMeaning(option: Option<string>)
    ensures IsGiven(option) <==> option != None && option != Some("")
  {
  }

  function LabelsOf(option: Option<string>): Option<seq<string>> {
    if IsGiven(option) then Some(Split(",", option.value)) else None
  }

  function JobOf(options: CommandLine, file: File): Job
    requires IsGiven(options.summary) && IsGiven(options.project)
  {
    Job(file, options.project.value, options.summary.value, LabelsOf(options.labels))
  }

  lemma AllForJob(log: seq<Request>, job: Job, givenUser: Option<string>, givenPassword: Option<string>,
                  userLines: nat -> string, passwords: nat -> string)
    requires log != [] ==>
      log[0] == RequestOf(job, if givenUser.Some? then givenUser.value else RStrip(userLines(0)),
                          if givenPassword.Some? then givenPassword.value else passwords(0))
    requires forall n: nat :: 0 < n < |log| ==>
      log[n] == RequestOf(job, RStrip(userLines(if givenUser.Some? then n - 1 else n)),
                          passwords(if givenPassword.Some? then n - 1 else n))
    ensures forall n: nat :: n < |log| ==>
      && log[n].host == job.project + ".googlecode.com"
      && (ReadRequest(log[n]) == Some(PartsOf(job)) <==> Sendable(job))
  {
    hide RequestOf, ReadRequest, PartsOf, Sendable, RStrip;
    forall n: nat | n < |log|
      ensures log[n].host == job.project + ".googlecode.com"
      ensures ReadRequest(log[n]) == Some(PartsOf(job)) <==> Sendable(job)
    {
      SentForJob(log[n], job, UserNameAt(givenUser, userLines, n), PasswordAt(givenPassword, passwords, n));
    }
  }

  /** The whole script. Exit codes: 2 for a usage error, 0 if the file was uploaded, 1 if not. */
  method RunUploader(options: CommandLine, args: seq<string>, files: string -> File,
                     replies: nat -> Reply, userLines: nat -> string, passwords: nat -> string)
    returns (exitCode: int, log: seq<Request>)
    ensures exitCode == 2 <==> !IsGiven(options.summary) || !IsGiven(options.project) || |args| < 1 || |args| > 1
    ensures exitCode == 2 ==> log == []
    ensures exitCode != 2 ==>
      && 1 <= |log| <= 3
      && var last := replies(|log| - 1);
      && exitCode == (if last.status == 201 && IsGiven(last.location) then 0 else 1)
      && (forall n: nat :: n < |log| - 1 ==> replies(n).status == 401 || replies(n).status == 403)
      && (|log| < 3 ==> last.status != 401 && last.status != 403)
    ensures exitCode != 2 ==> forall n: nat :: n < |log| ==>
      && log[n].host == options.project.value + ".googlecode.com"
      && (ReadRequest(log[n]) == Some(PartsOf(JobOf(options, files(args[0])))) <==>
          Sendable(JobOf(options, files(args[0]))))
    ensures exitCode != 2 ==>
      log[0] == RequestOf(JobOf(options, files(args[0])),
                          if options.user.Some? then options.user.value else RStrip(userLines(0)),
                          if options.password.Some? then options.password.value else passwords(0))
    ensures exitCode != 2 ==> forall n: nat :: 0 < n < |log| ==>
      log[n] == RequestOf(JobOf(options, files(args[0])),
                          RStrip(userLines(if options.user.Some? then n - 1 else n)),
                          passwords(if options.password.Some? then n - 1 else n))
  {
    hide RequestOf, ReadRequest, PartsOf, Sendable, RStrip, Split;
    if !IsGiven(options.summary) {
      return 2, [];
    } else if !IsGiven(options.project) {
      return 2, [];
    } else if |args| < 1 {
      return 2, [];
    } else if |args| > 1 {
      return 2, [];
    }
    var labels := None;
    if IsGiven(options.labels) {
      labels := Some(Split(",", options.labels.value));
    }
    var job := Job(files(args[0]), options.project.value, options.summary.value, labels);
    assert job == JobOf(options, files(args[0]));
    hide JobOf;
    var r;
    r, log := UploadFindAuth(job, options.user, options.password, 3, replies, userLines, passwords);
    exitCode := if IsGiven(r.value.url) then 0 else 1;
    AllForJob(log, job, options.user, options.password, userLines, passwords);
  }

  /** Without the labels option the server reads the summary and the file and nothing else, exactly
      when neither holds a boundary line and the file name can be quoted. */
  lemma SummaryAndFileOnly(options: CommandLine, file: File, userName: string, password: string)
    requires IsGiven(options.summary) && IsGiven(options.project)
    requires options.labels == None || options.labels == Some("")
    ensures ReadRequest(RequestOf(JobOf(options, file), userName, password)) ==
            Some([Part("summary", None, None, options.summary.value),
                  Part("filename", Some(file.name), Some("application/octet-stream"), file.content)])
            <==>
            && NoBoundaryLine(BOUNDARY, options.summary.value)
            && Quotable(file.name) && NoBoundaryLine(BOUNDARY, file.content)
  {
    var job := JobOf(options, file);
    hide ReadRequest, RequestOf, NoBoundaryLine, Quotable;
    RequestReadsBackExactly(job, userName, password);
    assert PartsOf(job) == [Part("summary", None, None, options.summary.value), FilePart(file)];
  }

  /** The labels option on the wire: one field per piece between commas, stripped and in order, after
      the summary and before the file; unstripped, the pieces are the option. */
  lemma LabelsOnTheWire(options: CommandLine, file: File, userName: string, password: string)
    requires IsGiven(options.summary) && IsGiven(options.project) && IsGiven(options.labels)
    requires Sendable(JobOf(options, file))
    ensures var sent := ReadRequest(RequestOf(JobOf(options, file), userName, password));
            var pieces := Split(",", options.labels.value);
            && Join(",", pieces) == options.labels.value
            && sent.Some? && |sent.value| == |pieces| + 2
            && sent.value[0] == Part("summary", None, None, options.summary.value)
            && (forall i :: 0 <= i < |pieces| ==>
                  sent.value[i + 1] == Part("label", None, None, Strip(pieces[i])) && ',' !in pieces[i])
            && sent.value[|pieces| + 1] == FilePart(file)
  {
    var job, pieces := JobOf(options, file), Split(",", options.labels.value);
    JoinUndoesSplit(",", options.labels.value);
    forall i | 0 <= i < |pieces|
      ensures ',' !in pieces[i]
    {
      AbsentCharacter(",", pieces[i]);
    }
    RequestReadsBackExactly(job, userName, password);
    PartsInOrder(job, pieces);
    hide ReadRequest, RequestOf, Sendable, PartsOf, Strip, Split, Join, FilePart;
  }

  lemma PartsInOrder(job: Job, labels: seq<string>)
    requires job.labels == Some(labels)
    ensures |PartsOf(job)| == |labels| + 2
    ensures PartsOf(job)[0] == Part("summary", None, None, job.summary)
    ensures forall i :: 0 <= i < |labels| ==> PartsOf(job)[i + 1] == Part("label", None, None, Strip(labels[i]))
    ensures PartsOf(job)[|labels| + 1] == FilePart(job.file)
  {
    hide Strip, FilePart;
    var parts := LabelParts(job.labels);
    hide LabelParts;
    Between(Part("summary", None, None, job.summary), parts, FilePart(job.file));
  }

  lemma Between<T>(first: T, middle: seq<T>, last: T)
    ensures var all := [first] + middle + [last];
            && |all| == |middle| + 2 && all[0] == first && all[|middle| + 1] == last
            && forall i :: 0 <= i < |middle| ==> all[i + 1] == middle[i]
  {
  }

  lemma NoCharacter(d: string, s: string)
    requires |d| == 1 && d[0] !in s
    ensures !Occurs(d, s)
  {
    forall k: nat
      ensures !OccursAt(d, s, k)
    {
      if OccursAt(d, s, k) {
        OccurrenceHasFirst(d, s, k);
      }
    }
  }

  lemma AbsentCharacter(d: string, s: string)
    requires |d| == 1 && !Occurs(d, s)
    ensures d[0] !in s
  {
    forall k | 0 <= k < |s|
      ensures s[k] != d[0]
    {
      assert s[k..k + 1] == [s[k]] && d == [d[0]];
      assert !OccursAt(d, s, k);
    }
  }
}
