/**
 * The pure part of the `send-email-gmail` function: the credentials check,
 * the `multipart/alternative` message (section 5.1 of RFC 2046) joined with
 * CRLF line ends (section 2.1 of RFC 2822), the plain-text part made by
 * stripping tags, and the unpadded base64url encoding of the whole message
 * (section 5 of RFC 4648).
 */
module Email {
  import opened Wrappers
  import opened Text
  import Base64

  /** The multipart boundary the message declares and uses. */
  const Boundary: string := "boundary-string"

  const MissingCredentials: string := "Missing Gmail credentials"

  /** `btoa`'s error for a character above U+00FF. */
  const InvalidCharacter: string := "InvalidCharacterError"

  /** The start of the top-level Content-Type header, up to the boundary value. */
  const MultipartPrefix: string := "Content-Type: multipart/" + "alternative; boundary=\""

  /** The charset parameter of both parts. */
  const Utf8: string := "charset=\"UTF-8\""

  /** The request body: `textBody` is optional. */
  datatype EmailRequest = EmailRequest(to: string, subject: string, htmlBody: string, textBody: Option<string>)

  /** The four environment values, all present and non-empty. */
  datatype Credentials = Credentials(clientId: string, clientSecret: string, refreshToken: string, fromEmail: string)

  /** `!value` for an environment variable: unset or empty. */
  predicate Missing(value: Option<string>) {
    value.None? || value.value == ""
  }

  /** The check before the token request: any missing credential stops the function. */
  function CheckCredentials(clientId: Option<string>, clientSecret: Option<string>,
                            refreshToken: Option<string>, fromEmail: Option<string>): (r: Result<Credentials, string>)
    ensures r.Failure? <==> Missing(clientId) || Missing(clientSecret) || Missing(refreshToken) || Missing(fromEmail)
    ensures r.Failure? ==> r.error == MissingCredentials
    ensures r.Success? ==> r.value == Credentials(clientId.value, clientSecret.value, refreshToken.value, fromEmail.value)
  {
    if Missing(clientId) || Missing(clientSecret) || Missing(refreshToken) || Missing(fromEmail)
    then Failure(MissingCredentials)
    else Success(Credentials(clientId.value, clientSecret.value, refreshToken.value, fromEmail.value))
  }

  /** No `<` is followed, anywhere later, by a `>`: nothing the tag pattern could still match. */
  predicate TagFree(s: string) {
    forall i, j :: 0 <= i < j < |s| && s[i] == '<' ==> s[j] != '>'
  }

  /**
   * The global tag pattern replaced by nothing: from each `<` up to the next `>` is
   * removed; a `<` with no `>` after it stays, as does everything else.
   */
  function StripTags(s: string): (r: string)
    ensures |r| <= |s|
    decreases |s|
  {
    if s == "" then ""
    else if s[0] == '<' && IndexFrom(s, ">", 1).Some? then StripTags(s[IndexFrom(s, ">", 1).value + 1..])
    else [s[0]] + StripTags(s[1..])
  }

  /** Stripping only removes characters: every output character comes from the input. */
  lemma {:induction false} StripTagsShrinks(s: string)
    ensures forall k :: 0 <= k < |StripTags(s)| ==> StripTags(s)[k] in s
    decreases |s|
  {
    if s != "" {
      var r := StripTags(s);
      if s[0] == '<' && IndexFrom(s, ">", 1).Some? {
        var rest := s[IndexFrom(s, ">", 1).value + 1..];
        assert r == StripTags(rest);
        StripTagsShrinks(rest);
        forall k | 0 <= k < |r| ensures r[k] in s {
          assert r[k] in rest;
        }
      } else {
        var r' := StripTags(s[1..]);
        assert r == [s[0]] + r';
        StripTagsShrinks(s[1..]);
        forall k | 1 <= k < |r| ensures r[k] in s {
          assert r[k] == r'[k - 1];
          assert r'[k - 1] in s[1..];
        }
      }
    }
  }

  /** Text without `<` comes out unchanged. */
  lemma {:induction false} StripTagsNoOpen(s: string)
    requires forall k :: 0 <= k < |s| ==> s[k] != '<'
    ensures StripTags(s) == s
    decreases |s|
  {
    if s != "" {
      StripTagsNoOpen(s[1..]);
      assert s == [s[0]] + s[1..];
    }
  }

  /** After stripping, no `<` is followed later by a `>`. */
  lemma {:induction false} StripTagsLeavesNoTag(s: string)
    ensures TagFree(StripTags(s))
    decreases |s|
  {
    if s != "" {
      var r := StripTags(s);
      if s[0] == '<' && IndexFrom(s, ">", 1).Some? {
        StripTagsLeavesNoTag(s[IndexFrom(s, ">", 1).value + 1..]);
      } else {
        var r' := StripTags(s[1..]);
        StripTagsLeavesNoTag(s[1..]);
        assert r == [s[0]] + r';
        if s[0] == '<' {
          NoCloseAfter(s);
          StripTagsShrinks(s[1..]);
          forall j | 0 <= j < |r'| ensures r'[j] != '>' {
            assert r'[j] in s[1..];
          }
        }
        forall i, j | 0 <= i < j < |r| && r[i] == '<' ensures r[j] != '>' {
          assert r[j] == r'[j - 1];
          if i > 0 {
            assert r[i] == r'[i - 1];
          }
        }
      }
    }
  }

  /** No `>` at or after index 1 means the rest of the text has no `>`. */
  lemma NoCloseAfter(s: string)
    requires |s| > 0 && IndexFrom(s, ">", 1).None?
    ensures forall k :: 0 <= k < |s[1..]| ==> s[1..][k] != '>'
  {
    forall k | 0 <= k < |s[1..]| ensures s[1..][k] != '>' {
      assert !OccursAt(s, ">", k + 1);
      assert s[k + 1..k + 2] == [s[k + 1]];
    }
  }

  /** The plain-text part: the text body when it is non-empty, else the HTML body stripped of tags. */
  function PlainText(request: EmailRequest): (text: string)
    ensures request.textBody.Some? && request.textBody.value != "" ==> text == request.textBody.value
    ensures request.textBody.None? || request.textBody.value == "" ==> text == StripTags(request.htmlBody) && TagFree(text)
  {
    StripTagsLeavesNoTag(request.htmlBody);
    if request.textBody.Some? && request.textBody.value != "" then request.textBody.value
    else StripTags(request.htmlBody)
  }

  /**
   * `emailLines`: five headers, a blank line, then the plain and HTML parts
   * between boundary delimiters. The first empty line is the one that ends
   * the header block, and the plain part comes before the HTML part.
   */
  function EmailLines(fromEmail: string, request: EmailRequest): (lines: seq<string>)
    ensures |lines| == 17
    ensures lines[5] == "" && forall k :: 0 <= k < 5 ==> lines[k] != ""
    ensures lines[9] == PlainText(request) && lines[14] == request.htmlBody
  {
    [ "From: " + fromEmail,
      "To: " + request.to,
      "Subject: " + request.subject,
      "MIME-Version: 1.0",
      MultipartPrefix + Boundary + "\"",
      "",
      "--" + Boundary,
      "Content-Type: text/plain; " + Utf8,
      "",
      PlainText(request),
      "",
      "--" + Boundary,
      "Content-Type: text/html; " + Utf8,
      "",
      request.htmlBody,
      "",
      "--" + Boundary + "--" ]
  }

  /**
   * The raw message: the lines joined with CRLF. It opens with the From
   * header and ends with the close delimiter, with no line end after it.
   */
  function RawMessage(fromEmail: string, request: EmailRequest): (raw: string)
    ensures "From: " + fromEmail <= raw
    ensures var close := "--" + Boundary + "--";
            |close| <= |raw| && raw[|raw| - |close|..] == close
  {
    var lines := EmailLines(fromEmail, request);
    JoinStartsWithFirst(lines, CRLF);
    JoinEndsWithLast(lines, CRLF);
    Join(lines, CRLF)
  }

  /**
   * The boundary the header declares is the one both parts open with, and
   * the body ends with its close delimiter (section 5.1.1 of RFC 2046).
   */
  lemma DelimitersMatchDeclaredBoundary(fromEmail: string, request: EmailRequest)
    ensures var lines := EmailLines(fromEmail, request);
            exists b ::
              && lines[4] == MultipartPrefix + b + "\""
              && lines[6] == "--" + b && lines[11] == "--" + b
              && lines[16] == "--" + b + "--"
              && lines[7] == "Content-Type: text/plain; " + Utf8
              && lines[12] == "Content-Type: text/html; " + Utf8
  {
    var lines := EmailLines(fromEmail, request);
    assert lines[4] == MultipartPrefix + Boundary + "\"";
  }

  /** Splitting at every CRLF, as a reader of the message does. */
  function SplitLines(s: string): seq<string>
    decreases |s|
  {
    match IndexOf(s, CRLF)
    case None => [s]
    case Some(i) => [s[..i]] + SplitLines(s[i + 2..])
  }

  predicate NoCarriageReturn(s: string) {
    forall k :: 0 <= k < |s| ==> s[k] != '\r'
  }

  /** Lines without a carriage return are recovered from their CRLF join. */
  lemma {:induction false} SplitJoin(lines: seq<string>)
    requires |lines| > 0
    requires forall k :: 0 <= k < |lines| ==> NoCarriageReturn(lines[k])
    ensures SplitLines(Join(lines, CRLF)) == lines
    decreases |lines|
  {
    var first := lines[0];
    if |lines| == 1 {
      NoCrlfIn(first);
    } else {
      var rest := Join(lines[1..], CRLF);
      var s := first + CRLF + rest;
      assert OccursAt(s, CRLF, |first|) by {
        assert s[|first|..|first| + 2] == CRLF;
      }
      forall j | 0 <= j < |first| ensures !OccursAt(s, CRLF, j) {
        assert s[j] == first[j];
        if j + 2 <= |s| {
          assert s[j..j + 2][0] == s[j];
        }
      }
      assert IndexOf(s, CRLF) == Some(|first|);
      assert s[..|first|] == first;
      assert s[|first| + 2..] == rest;
      SplitJoin(lines[1..]);
      assert lines == [first] + lines[1..];
    }
  }

  lemma NoCrlfIn(s: string)
    requires NoCarriageReturn(s)
    ensures SplitLines(s) == [s]
  {
    forall j | 0 <= j && j + 2 <= |s| ensures !OccursAt(s, CRLF, j) {
      assert s[j..j + 2][0] == s[j];
    }
  }

  /**
   * When no field holds a carriage return, the CRLF-separated lines of the
   * raw message are exactly the seventeen lines, headers first in the order
   * From, To, Subject, MIME-Version, Content-Type.
   */
  lemma RawMessageLines(fromEmail: string, request: EmailRequest)
    requires NoCarriageReturn(fromEmail) && NoCarriageReturn(request.to) && NoCarriageReturn(request.subject)
    requires NoCarriageReturn(request.htmlBody) && NoCarriageReturn(PlainText(request))
    ensures var lines := SplitLines(RawMessage(fromEmail, request));
            && lines == EmailLines(fromEmail, request)
            && |lines| == 17
            && lines[0] == "From: " + fromEmail && lines[1] == "To: " + request.to
            && lines[2] == "Subject: " + request.subject && lines[3] == "MIME-Version: 1.0"
            && lines[4] == MultipartPrefix + Boundary + "\""
  {
    EmailLinesNoCarriageReturn(fromEmail, request);
    SplitJoin(EmailLines(fromEmail, request));
  }

  /** No line of the message holds a carriage return when no field does. */
  lemma EmailLinesNoCarriageReturn(fromEmail: string, request: EmailRequest)
    requires NoCarriageReturn(fromEmail) && NoCarriageReturn(request.to) && NoCarriageReturn(request.subject)
    requires NoCarriageReturn(request.htmlBody) && NoCarriageReturn(PlainText(request))
    ensures var lines := EmailLines(fromEmail, request);
            forall k :: 0 <= k < |lines| ==> NoCarriageReturn(lines[k])
  {
    var lines := EmailLines(fromEmail, request);
    NoCarriageReturnConcat("From: ", fromEmail);
    NoCarriageReturnConcat("To: ", request.to);
    NoCarriageReturnConcat("Subject: ", request.subject);
    FixedLinesNoCarriageReturn();
    forall k | 0 <= k < |lines| ensures NoCarriageReturn(lines[k]) {
      if k !in {0, 1, 2, 9, 14} {
        assert lines[k] in FixedLines;
      }
    }
  }

  const FixedLines: set<string> := {
    "MIME-Version: 1.0", MultipartPrefix + Boundary + "\"", "", "--" + Boundary,
    "Content-Type: text/plain; " + Utf8, "Content-Type: text/html; " + Utf8,
    "--" + Boundary + "--" }

  lemma HeaderLinesNoCarriageReturn()
    ensures NoCarriageReturn("MIME-Version: 1.0")
    ensures NoCarriageReturn(MultipartPrefix + Boundary + "\"")
  {
    assert NoCarriageReturn("Content-Type: multipart/");
    assert NoCarriageReturn("alternative; boundary=\"");
    NoCarriageReturnConcat("Content-Type: multipart/", "alternative; boundary=\"");
    assert NoCarriageReturn(Boundary + "\"");
    NoCarriageReturnConcat(MultipartPrefix, Boundary + "\"");
  }

  lemma PartLinesNoCarriageReturn()
    ensures NoCarriageReturn("--" + Boundary) && NoCarriageReturn("--" + Boundary + "--")
    ensures NoCarriageReturn("Content-Type: text/plain; " + Utf8)
    ensures NoCarriageReturn("Content-Type: text/html; " + Utf8)
  {
    assert NoCarriageReturn(Utf8);
    assert NoCarriageReturn("Content-Type: text/plain; ");
    assert NoCarriageReturn("Content-Type: text/html; ");
    NoCarriageReturnConcat("Content-Type: text/plain; ", Utf8);
    NoCarriageReturnConcat("Content-Type: text/html; ", Utf8);
  }

  lemma FixedLinesNoCarriageReturn()
    ensures forall line :: line in FixedLines ==> NoCarriageReturn(line)
  {
    HeaderLinesNoCarriageReturn();
    PartLinesNoCarriageReturn();
  }

  lemma NoCarriageReturnConcat(a: string, b: string)
    requires NoCarriageReturn(a) && NoCarriageReturn(b)
    ensures NoCarriageReturn(a + b)
  {
    forall k | 0 <= k < |a + b| ensures (a + b)[k] != '\r' {
      if k >= |a| {
        assert (a + b)[k] == b[k - |a|];
      }
    }
  }

  /** The characters of a byte string, one per byte (Latin-1). */
  predicate IsByteString(s: string) {
    forall k :: 0 <= k < |s| ==> s[k] as int < 256
  }

  function Bytes(s: string): seq<Base64.Byte>
    requires IsByteString(s)
  {
    seq(|s|, k requires 0 <= k < |s| => s[k] as int)
  }

  function Chars(b: seq<Base64.Byte>): string {
    seq(|b|, k requires 0 <= k < |b| => b[k] as char)
  }

  /** `btoa(s)`: throws for a character above U+00FF, otherwise encodes the characters as bytes. */
  function Btoa(s: string): (r: Result<string, string>)
    ensures r.Success? <==> IsByteString(s)
    ensures r.Failure? ==> r.error == InvalidCharacter
  {
    if IsByteString(s) then Success(Base64.Encode(Bytes(s))) else Failure(InvalidCharacter)
  }

  /** Every occurrence of the character `x` replaced by `y`. */
  function ReplaceChar(s: string, x: char, y: char): (r: string)
    ensures |r| == |s|
    ensures forall k :: 0 <= k < |s| ==> r[k] == (if s[k] == x then y else s[k])
  {
    seq(|s|, k requires 0 <= k < |s| => if s[k] == x then y else s[k])
  }

  /** Drops the run of `=` at the end. */
  function StripTrailingEquals(s: string): (r: string)
    ensures r <= s
    ensures |r| == 0 || r[|r| - 1] != '='
    ensures forall k :: |r| <= k < |s| ==> s[k] == '='
    decreases |s|
  {
    if |s| > 0 && s[|s| - 1] == '=' then StripTrailingEquals(s[..|s| - 1]) else s
  }

  /**
   * The encoding chain of the function: `btoa`, then `+` to `-`, `/` to `_`,
   * and no padding. It fails, with `btoa`'s error, exactly when the message
   * holds a character above U+00FF.
   */
  function EncodeRaw(email: string): (r: Result<string, string>)
    ensures r.Success? <==> IsByteString(email)
    ensures r.Failure? ==> r.error == InvalidCharacter
  {
    match Btoa(email)
    case Failure(e) => Failure(e)
    case Success(b64) => Success(StripTrailingEquals(ReplaceChar(ReplaceChar(b64, '+', '-'), '/', '_')))
  }

  /** The characters base64url uses (section 5 of RFC 4648). */
  predicate InUrlAlphabet(c: char) {
    'A' <= c <= 'Z' || 'a' <= c <= 'z' || '0' <= c <= '9' || c == '-' || c == '_'
  }

  /** The standard alphabet with `+` and `/` swapped for `-` and `_`. */
  function ToUrl(s: string): string {
    ReplaceChar(ReplaceChar(s, '+', '-'), '/', '_')
  }

  /** What a reader does first: `-` back to `+`, `_` back to `/`. */
  function FromUrl(s: string): string {
    ReplaceChar(ReplaceChar(s, '-', '+'), '_', '/')
  }

  /** Pad with `=` up to a multiple of four, then base64-decode. */
  function UrlDecode(s: string): Option<string> {
    var padded := FromUrl(s) + (if |s| % 4 == 2 then "==" else if |s| % 4 == 3 then "=" else "");
    match Base64.Decode(padded)
    case None => None
    case Some(bytes) => Some(Chars(bytes))
  }

  /** Without padding, the encoded message is the url-alphabet form of the unpadded base64. */
  lemma EncodeRawIsUnpadded(email: string)
    requires IsByteString(email)
    ensures EncodeRaw(email) == Success(ToUrl(Base64.Unpadded(Bytes(email))))
  {
    var u := Base64.Unpadded(Bytes(email));
    var p := Base64.Padding(|Bytes(email)|);
    Base64.UnpaddedInAlphabet(Bytes(email));
    assert ToUrl(u + p) == ToUrl(u) + p;
    var t := ToUrl(u);
    forall k | 0 <= k < |t| ensures t[k] != '=' {
      assert Base64.InAlphabet(u[k]);
    }
    StripPadding(t, p);
  }

  lemma {:induction false} StripPadding(t: string, p: string)
    requires forall k :: 0 <= k < |t| ==> t[k] != '='
    requires forall k :: 0 <= k < |p| ==> p[k] == '='
    ensures StripTrailingEquals(t + p) == t
    decreases |p|
  {
    if |p| > 0 {
      assert (t + p)[..|t + p| - 1] == t + p[..|p| - 1];
      StripPadding(t, p[..|p| - 1]);
    } else {
      assert t + p == t;
    }
  }

  /** The encoded message uses only `A-Z a-z 0-9 - _`, so in particular no `=`. */
  lemma EncodeRawAlphabet(email: string)
    requires IsByteString(email)
    ensures EncodeRaw(email).Success?
    ensures forall k :: 0 <= k < |EncodeRaw(email).value| ==> InUrlAlphabet(EncodeRaw(email).value[k])
  {
    EncodeRawIsUnpadded(email);
    var u := Base64.Unpadded(Bytes(email));
    Base64.UnpaddedInAlphabet(Bytes(email));
    forall k | 0 <= k < |ToUrl(u)| ensures InUrlAlphabet(ToUrl(u)[k]) {
      assert Base64.InAlphabet(u[k]);
    }
  }

  /** Four characters for every three bytes, rounded up. */
  lemma EncodeRawLength(email: string)
    requires IsByteString(email)
    ensures |EncodeRaw(email).value| == (4 * |email| + 2) / 3
  {
    EncodeRawIsUnpadded(email);
    Base64.UnpaddedLength(Bytes(email));
  }

  /** Undoing the alphabet swap, re-padding and decoding gives back the raw message. */
  lemma UrlRoundTrip(email: string)
    requires IsByteString(email)
    ensures EncodeRaw(email).Success?
    ensures UrlDecode(EncodeRaw(email).value) == Some(email)
  {
    var b := Bytes(email);
    var u := Base64.Unpadded(b);
    EncodeRawIsUnpadded(email);
    Base64.UnpaddedInAlphabet(b);
    Base64.UnpaddedLength(b);
    forall k | 0 <= k < |u| ensures u[k] != '-' && u[k] != '_' {
      assert Base64.InAlphabet(u[k]);
    }
    assert FromUrl(ToUrl(u)) == u;
    PaddingFromLength(|b|, |u|);
    Base64.DecodeEncode(b);
    assert Chars(b) == email;
  }

  /** The padding a reader adds back is the padding `btoa` wrote. */
  lemma PaddingFromLength(n: nat, m: nat)
    requires m == (4 * n + 2) / 3
    ensures Base64.Padding(n) == (if m % 4 == 2 then "==" else if m % 4 == 3 then "=" else "")
  {
    var q := n / 3;
    assert n == 3 * q + n % 3;
    if n % 3 == 0 {
      assert m == 4 * q;
    } else if n % 3 == 1 {
      assert m == 4 * q + 2;
    } else {
      assert m == 4 * q + 3;
    }
  }

  /**
   * The handler's pure path: the credentials check comes first, then the
   * message is built and encoded. The token and send requests between and
   * after these steps are not modelled.
   */
  function PrepareRaw(clientId: Option<string>, clientSecret: Option<string>, refreshToken: Option<string>,
                      fromEmail: Option<string>, request: EmailRequest): (r: Result<string, string>)
    ensures Missing(clientId) || Missing(clientSecret) || Missing(refreshToken) || Missing(fromEmail)
            ==> r == Failure(MissingCredentials)
    ensures !(Missing(clientId) || Missing(clientSecret) || Missing(refreshToken) || Missing(fromEmail))
            ==> r == EncodeRaw(RawMessage(fromEmail.value, request))
  {
    match CheckCredentials(clientId, clientSecret, refreshToken, fromEmail)
    case Failure(e) => Failure(e)
    case Success(c) => EncodeRaw(RawMessage(c.fromEmail, request))
  }
}
