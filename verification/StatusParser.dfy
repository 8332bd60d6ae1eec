/** Recovering a gRPC status from its debug string (flight_sql.rs). */
module StatusParser {
  import opened Wrappers

  datatype Atom =
    | OkAtom | TransportError | ServerError | InvalidArgumentAtom | NotFoundAtom
    | PermissionDeniedAtom | UnimplementedAtom | UnauthenticatedAtom

  datatype Code =
    | Ok | Cancelled | Unknown | InvalidArgument | DeadlineExceeded | NotFound | AlreadyExists
    | PermissionDenied | ResourceExhausted | FailedPrecondition | Aborted | OutOfRange
    | Unimplemented | Internal | Unavailable | DataLoss | Unauthenticated

  datatype Status = Status(atom: Atom, grpc: int, message: string)

  // ---- the two code tables ------------------------------------------------------------------------------

  /** `tonic_code_to_atom`. */
  function CodeEntry(code: Code): (Atom, int) {
    match code
    case Cancelled => (TransportError, 1)
    case Unavailable => (TransportError, 14)
    case DeadlineExceeded => (TransportError, 4)
    case Unauthenticated => (UnauthenticatedAtom, 16)
    case PermissionDenied => (PermissionDeniedAtom, 7)
    case NotFound => (NotFoundAtom, 5)
    case InvalidArgument => (InvalidArgumentAtom, 3)
    case OutOfRange => (InvalidArgumentAtom, 11)
    case Unimplemented => (UnimplementedAtom, 12)
    case Internal => (ServerError, 13)
    case Unknown => (ServerError, 2)
    case ResourceExhausted => (ServerError, 8)
    case FailedPrecondition => (ServerError, 9)
    case Aborted => (ServerError, 10)
    case AlreadyExists => (ServerError, 6)
    case DataLoss => (ServerError, 15)
    case Ok => (ServerError, 0)
  }

  /** `tonic_code_name_to_atom`. */
  function NameEntry(name: string): (Atom, int) {
    match name
    case "Ok" => (OkAtom, 0)
    case "Cancelled" => (TransportError, 1)
    case "Unknown" => (ServerError, 2)
    case "InvalidArgument" => (InvalidArgumentAtom, 3)
    case "DeadlineExceeded" => (TransportError, 4)
    case "NotFound" => (NotFoundAtom, 5)
    case "AlreadyExists" => (ServerError, 6)
    case "PermissionDenied" => (PermissionDeniedAtom, 7)
    case "ResourceExhausted" => (ServerError, 8)
    case "FailedPrecondition" => (ServerError, 9)
    case "Aborted" => (ServerError, 10)
    case "OutOfRange" => (InvalidArgumentAtom, 11)
    case "Unimplemented" => (UnimplementedAtom, 12)
    case "Internal" => (ServerError, 13)
    case "Unavailable" => (TransportError, 14)
    case "DataLoss" => (ServerError, 15)
    case "Unauthenticated" => (UnauthenticatedAtom, 16)
    case _ => (ServerError, 2)
  }

  function NameOf(code: Code): string {
    match code
    case Ok => "Ok"
    case Cancelled => "Cancelled"
    case Unknown => "Unknown"
    case InvalidArgument => "InvalidArgument"
    case DeadlineExceeded => "DeadlineExceeded"
    case NotFound => "NotFound"
    case AlreadyExists => "AlreadyExists"
    case PermissionDenied => "PermissionDenied"
    case ResourceExhausted => "ResourceExhausted"
    case FailedPrecondition => "FailedPrecondition"
    case Aborted => "Aborted"
    case OutOfRange => "OutOfRange"
    case Unimplemented => "Unimplemented"
    case Internal => "Internal"
    case Unavailable => "Unavailable"
    case DataLoss => "DataLoss"
    case Unauthenticated => "Unauthenticated"
  }

  // ---- the parser -----------------------------------------------------------------------------------------

  predicate OccursAt(s: string, pat: string, k: nat) {
    k + |pat| <= |s| && s[k..k + |pat|] == pat
  }

  /** `str::find`: the first occurrence. */
  function Find(s: string, pat: string): (r: Option<nat>)
    ensures r.Some? ==> OccursAt(s, pat, r.value) && forall j :: 0 <= j < r.value ==> !OccursAt(s, pat, j)
    ensures r.None? ==> forall j :: 0 <= j <= |s| ==> !OccursAt(s, pat, j)
  {
    FindFrom(s, pat, 0)
  }

  function FindFrom(s: string, pat: string, k: nat): (r: Option<nat>)
    requires k <= |s|
    ensures r.Some? ==> k <= r.value && OccursAt(s, pat, r.value)
    ensures r.Some? ==> forall j :: k <= j < r.value ==> !OccursAt(s, pat, j)
    ensures r.None? ==> forall j :: k <= j <= |s| ==> !OccursAt(s, pat, j)
    decreases |s| - k
  {
    if OccursAt(s, pat, k) then Some(k)
    else if k == |s| then None
    else FindFrom(s, pat, k + 1)
  }

  function ExtractField(s: string, prefix: string, suffix: string): Option<string> {
    match Find(s, prefix)
    case None => None
    case Some(at) =>
      var rest := s[at + |prefix|..];
      match Find(rest, suffix)
      case None => None
      case Some(end) => Some(rest[..end])
  }

  predicate IsWhitespace(c: char) {
    || c == ' ' || '\t' <= c <= '\r' || c == '\U{85}' || c == '\U{A0}' || c == '\U{1680}'
    || '\U{2000}' <= c <= '\U{200A}' || c == '\U{2028}' || c == '\U{2029}' || c == '\U{202F}'
    || c == '\U{205F}' || c == '\U{3000}'
  }

  function TrimLeft(s: string): string {
    if s != "" && IsWhitespace(s[0]) then TrimLeft(s[1..]) else s
  }

  function Trim(s: string): string
    decreases |s|
  {
    if s != "" && IsWhitespace(s[|s| - 1]) then Trim(s[..|s| - 1]) else TrimLeft(s)
  }

  predicate Blank(s: string) {
    forall i :: 0 <= i < |s| ==> s[i] in " \t\r\n"
  }

  /** Blanks around a name do not matter. */
  lemma TrimIgnoresBlanks(before: string, name: string, after: string)
    requires Blank(before) && Blank(after) && name != ""
    requires !IsWhitespace(name[0]) && !IsWhitespace(name[|name| - 1])
    ensures Trim(before + name + after) == name
  {
    TrimAfter(before + name, after);
    TrimBefore(before, name);
    var s := before + name;
    assert s[|s| - 1] == name[|name| - 1];
  }

  lemma {:induction false} TrimAfter(s: string, after: string)
    requires Blank(after)
    ensures Trim(s + after) == Trim(s)
    decreases |after|
  {
    if after == "" {
      assert s + "" == s;
    } else {
      TrimAfter(s, after[..|after| - 1]);
      assert (s + after)[..|s| + |after| - 1] == s + after[..|after| - 1];
    }
  }

  lemma {:induction false} TrimBefore(before: string, s: string)
    requires Blank(before) && s != "" && !IsWhitespace(s[0])
    ensures TrimLeft(before + s) == s
  {
    if before == "" {
      assert "" + s == s;
    } else {
      TrimBefore(before[1..], s);
      assert (before + s)[1..] == before[1..] + s;
    }
  }

  function Prepend(p: string, r: Option<string>): (q: Option<string>)
    ensures p == "" ==> q == r
  {
    match r
    case None => None
    case Some(s) =>
      assert "" + s == s;
      Some(p + s)
  }

  /** What one escape reads as; an escape the parser does not know stays as it is written. */
  function Unescape(c: char): string {
    if c == '"' then "\""
    else if c == 'n' then "\n"
    else if c == 't' then "\t"
    else if c == '\\' then "\\"
    else ['\\', c]
  }

  /** The text up to the closing quote, escapes read. */
  function Quoted(s: string): Option<string> {
    if s == "" then None
    else if s[0] == '"' then Some("")
    else if s[0] == '\\' then
      if |s| == 1 then None else Prepend(Unescape(s[1]), Quoted(s[2..]))
    else Prepend([s[0]], Quoted(s[1..]))
  }

  function QuotedField(s: string, prefix: string): Option<string> {
    match Find(s, prefix)
    case None => None
    case Some(at) => Quoted(s[at + |prefix|..])
  }

  /** `extract_quoted_field`. Of a printed message it reads back every character, the unrecoverable ones as
      they are written. */
  method ExtractQuotedField(s: string, prefix: string) returns (r: Option<string>)
    ensures r == QuotedField(s, prefix)
    ensures forall message, unprintable, rest :: IsQuote(s, prefix, message, unprintable, rest) ==>
              r == Some(ReadBackAll(message, unprintable))
  {
    forall message, unprintable, rest | IsQuote(s, prefix, message, unprintable, rest)
      ensures QuotedField(s, prefix) == Some(ReadBackAll(message, unprintable))
    {
      MessageReadsBack(message, unprintable, rest);
    }
    var at := Find(s, prefix);
    if at.None? {
      return None;
    }
    var text := s[at.value + |prefix|..];
    var k, result := 0, "";
    assert text[0..] == text;
    while true
      invariant k <= |text|
      invariant Quoted(text) == Prepend(result, Quoted(text[k..]))
      decreases |text| - k
    {
      ghost var before := text[k..];
      if k == |text| {
        return None;
      }
      var c := text[k];
      k := k + 1;
      if c == '"' {
        assert result + "" == result;
        return Some(result);
      } else if c == '\\' {
        if k == |text| {
          return None;
        }
        var escaped := text[k];
        k := k + 1;
        assert before[2..] == text[k..];
        Prepended(result, Unescape(escaped), Quoted(text[k..]));
        result := result + Unescape(escaped);
      } else {
        assert before[1..] == text[k..];
        Prepended(result, [c], Quoted(text[k..]));
        result := result + [c];
      }
    }
  }

  lemma Prepended(a: string, b: string, r: Option<string>)
    ensures Prepend(a, Prepend(b, r)) == Prepend(a + b, r)
  {
    if r.Some? {
      assert a + (b + r.value) == (a + b) + r.value;
    }
  }

  const MESSAGE_PREFIX := "message: \""

  /** `parse_tonic_status_debug`. */
  function Parse(s: string): Option<Status> {
    if !("Status {" <= s) then None
    else
      match ExtractField(s, "code: ", ",")
      case None => None
      case Some(name) =>
        var entry := NameEntry(Trim(name));
        var message := match QuotedField(s, MESSAGE_PREFIX) case None => "" case Some(m) => m;
        Some(Status(entry.0, entry.1, message))
  }

  /** It recovers every printed status: the entry of its code, and its message exactly when every character
      is recoverable. */
  method ParseTonicStatusDebug(s: string) returns (r: Option<Status>)
    ensures r == Parse(s)
    ensures forall code, message, unprintable, rest :: IsPrint(s, code, message, unprintable, rest) ==>
              && r.Some? && (r.value.atom, r.value.grpc) == NameEntry(NameOf(code))
              && (r.value.message == message <==> AllRecoverable(message, unprintable))
  {
    forall code, message, unprintable, rest | IsPrint(s, code, message, unprintable, rest)
      ensures Parse(s).Some? && (Parse(s).value.atom, Parse(s).value.grpc) == NameEntry(NameOf(code))
      ensures Parse(s).value.message == message <==> AllRecoverable(message, unprintable)
    {
      StatusRoundTrip(code, message, unprintable, rest);
    }
    if !("Status {" <= s) {
      return None;
    }
    var name := ExtractField(s, "code: ", ",");
    if name.None? {
      return None;
    }
    var entry := NameEntry(Trim(name.value));
    var message := ExtractQuotedField(s, MESSAGE_PREFIX);
    r := Some(Status(entry.0, entry.1, if message.Some? then message.value else ""));
  }

  // ---- the printer ------------------------------------------------------------------------------------------

  function HexDigit(d: nat): char
    requires d < 16
  {
    "0123456789abcdef"[d]
  }

  function Hex(n: nat): string {
    if n < 16 then [HexDigit(n)] else Hex(n / 16) + [HexDigit(n % 16)]
  }

  /** The letter after the backslash, for the characters that have one. */
  function EscapeLetter(c: char): Option<char> {
    match c
    case '"' => Some('"')
    case '\\' => Some('\\')
    case '\n' => Some('n')
    case '\t' => Some('t')
    case '\r' => Some('r')
    case '\0' => Some('0')
    case _ => None
  }

  /** The debug form of a character; `unprintable` tells which ones are written in hexadecimal. */
  function Escaped(c: char, unprintable: char -> bool): string {
    if EscapeLetter(c).Some? then ['\\', EscapeLetter(c).value]
    else if unprintable(c) then "\\u{" + Hex(c as int) + "}"
    else [c]
  }

  function EscapedAll(message: string, unprintable: char -> bool): string {
    if message == "" then "" else Escaped(message[0], unprintable) + EscapedAll(message[1..], unprintable)
  }

  const OPENING := "Status { code: "

  const BETWEEN := ", message: \""

  function Print(code: Code, message: string, unprintable: char -> bool): string {
    OPENING + NameOf(code) + BETWEEN + EscapedAll(message, unprintable) + "\""
  }

  /** After the prefix the text is that message printed, its closing quote, and anything. */
  ghost predicate IsQuote(s: string, prefix: string, message: string, unprintable: char -> bool, rest: string) {
    && Find(s, prefix).Some?
    && s[Find(s, prefix).value + |prefix|..] == EscapedAll(message, unprintable) + "\"" + rest
  }

  /** The text is that status printed, followed by anything. */
  ghost predicate IsPrint(s: string, code: Code, message: string, unprintable: char -> bool, rest: string) {
    s == Print(code, message, unprintable) + rest
  }

  /** The character's debug form is one the parser undoes. */
  predicate Recoverable(c: char, unprintable: char -> bool) {
    c != '\r' && c != '\0' && (unprintable(c) ==> EscapeLetter(c).Some?)
  }

  predicate AllRecoverable(message: string, unprintable: char -> bool) {
    forall i :: 0 <= i < |message| ==> Recoverable(message[i], unprintable)
  }

  // ---- the parser undoes the printer ------------------------------------------------------------------------

  predicate Bare(p: string) { '"' !in p && '\\' !in p }

  lemma {:induction false} BareRun(p: string, tail: string)
    requires Bare(p)
    ensures Quoted(p + tail) == Prepend(p, Quoted(tail))
  {
    if p == "" {
      assert p + tail == tail;
    } else {
      BareRun(p[1..], tail);
      assert (p + tail)[1..] == p[1..] + tail;
      Prepended([p[0]], p[1..], Quoted(tail));
      assert [p[0]] + p[1..] == p;
    }
  }

  lemma {:induction false} HexIsBare(n: nat)
    ensures Bare(Hex(n)) && Hex(n) != ""
  {
    if n >= 16 {
      HexIsBare(n / 16);
    }
  }

  /** What a printed character reads back as. */
  function ReadBack(c: char, unprintable: char -> bool): string {
    if Recoverable(c, unprintable) then [c] else Escaped(c, unprintable)
  }

  lemma AfterEscape(c: char, tail: string)
    ensures Quoted(['\\', c] + tail) == Prepend(Unescape(c), Quoted(tail))
  {
    assert (['\\', c] + tail)[2..] == tail;
  }

  lemma CharacterReadsBack(c: char, unprintable: char -> bool, tail: string)
    ensures Quoted(Escaped(c, unprintable) + tail) == Prepend(ReadBack(c, unprintable), Quoted(tail))
  {
    if EscapeLetter(c).Some? {
      AfterEscape(EscapeLetter(c).value, tail);
    } else if unprintable(c) {
      HexReadsBack(c as int, tail);
    } else {
      BareRun([c], tail);
    }
  }

  lemma HexReadsBack(n: nat, tail: string)
    ensures Quoted("\\u{" + Hex(n) + "}" + tail) == Prepend("\\u{" + Hex(n) + "}", Quoted(tail))
  {
    HexIsBare(n);
    var digits := "{" + Hex(n) + "}";
    assert "\\u{" + Hex(n) + "}" == ['\\', 'u'] + digits;
    assert "\\u{" + Hex(n) + "}" + tail == ['\\', 'u'] + (digits + tail);
    AfterEscape('u', digits + tail);
    BareRun(digits, tail);
    Prepended("\\u", digits, Quoted(tail));
  }

  function ReadBackAll(message: string, unprintable: char -> bool): string {
    if message == "" then "" else ReadBack(message[0], unprintable) + ReadBackAll(message[1..], unprintable)
  }

  lemma {:induction false} MessageReadsBack(message: string, unprintable: char -> bool, rest: string)
    ensures Quoted(EscapedAll(message, unprintable) + "\"" + rest) == Some(ReadBackAll(message, unprintable))
  {
    var end := "\"" + rest;
    if message == "" {
      assert "" + "\"" + rest == end;
    } else {
      var first, others := Escaped(message[0], unprintable), EscapedAll(message[1..], unprintable);
      assert first + others + "\"" + rest == first + (others + "\"" + rest);
      MessageReadsBack(message[1..], unprintable, rest);
      CharacterReadsBack(message[0], unprintable, others + "\"" + rest);
    }
  }

  lemma {:induction false} ReadBackGrows(message: string, unprintable: char -> bool)
    ensures |ReadBackAll(message, unprintable)| >= |message|
  {
    if message != "" {
      ReadBackGrows(message[1..], unprintable);
      assert |ReadBack(message[0], unprintable)| >= 1;
    }
  }

  /** Nothing is lost exactly when every character is recoverable; otherwise the text grows. */
  lemma {:induction false} ReadBackIsExact(message: string, unprintable: char -> bool)
    ensures ReadBackAll(message, unprintable) == message <==> AllRecoverable(message, unprintable)
  {
    if message != "" {
      var first, rest := message[0], message[1..];
      ReadBackIsExact(rest, unprintable);
      ReadBackGrows(rest, unprintable);
      assert message == [first] + rest;
      SplitRecoverable(message, unprintable);
      if Recoverable(first, unprintable) {
        assert ([first] + ReadBackAll(rest, unprintable))[1..] == ReadBackAll(rest, unprintable);
      } else {
        assert |ReadBack(first, unprintable)| >= 2;
      }
    }
  }

  lemma SplitRecoverable(message: string, unprintable: char -> bool)
    requires message != ""
    ensures AllRecoverable(message, unprintable) <==>
            Recoverable(message[0], unprintable) && AllRecoverable(message[1..], unprintable)
  {
    assert forall i :: 1 <= i < |message| ==> message[i] == message[1..][i - 1];
  }

  /** An occurrence is the first one when some character of the pattern does not come before. */
  lemma FirstOccurrence(s: string, pat: string, k: nat, pivot: nat)
    requires OccursAt(s, pat, k) && pivot < |pat| && pat[pivot] !in s[..k + pivot]
    ensures Find(s, pat) == Some(k)
  {
    forall j: nat | j < k ensures !OccursAt(s, pat, j) {
      OccurrenceAgrees(s, pat, j, pivot);
      assert s[..k + pivot][j + pivot] == s[j + pivot];
    }
  }

  lemma OccurrenceAgrees(s: string, pat: string, j: nat, pivot: nat)
    requires pivot < |pat| && j + pivot < |s|
    ensures OccursAt(s, pat, j) ==> s[j + pivot] == pat[pivot]
  {
    if OccursAt(s, pat, j) {
      assert s[j..j + |pat|][pivot] == s[j + pivot];
    }
  }

  predicate IsLetter(c: char) { 'A' <= c <= 'Z' || 'a' <= c <= 'z' }

  predicate IsName(name: string) {
    name != "" && forall i :: 0 <= i < |name| ==> IsLetter(name[i])
  }

  lemma NamesAreLetters(code: Code)
    ensures IsName(NameOf(code))
  {
    if CodeEntry(code).0 == ServerError {
      ServerNamesAreLetters(code);
    } else if CodeEntry(code).0 == TransportError {
      TransportNamesAreLetters(code);
    } else {
      ClientNamesAreLetters(code);
    }
  }

  lemma ServerNamesAreLetters(code: Code)
    requires CodeEntry(code).0 == ServerError
    ensures IsName(NameOf(code))
  {
  }

  lemma TransportNamesAreLetters(code: Code)
    requires CodeEntry(code).0 == TransportError
    ensures IsName(NameOf(code))
  {
  }

  lemma ClientNamesAreLetters(code: Code)
    requires CodeEntry(code).0 != ServerError && CodeEntry(code).0 != TransportError
    ensures IsName(NameOf(code))
  {
  }

  lemma CodeIsFound(name: string, tail: string)
    requires IsName(name) && tail != "" && tail[0] == ','
    ensures ExtractField(OPENING + (name + tail), "code: ", ",") == Some(name)
  {
    var s := OPENING + (name + tail);
    assert s[9..15] == "code: " && s[..13] == "Status { code";
    FirstOccurrence(s, "code: ", 9, 4);
    var rest := s[15..];
    assert rest == name + tail;
    assert rest[|name|..|name| + 1] == "," && rest[..|name|] == name;
    FirstOccurrence(rest, ",", |name|, 0);
  }

  lemma MessageIsFound(name: string, tail: string)
    requires IsName(name)
    ensures QuotedField(OPENING + (name + (BETWEEN + tail)), MESSAGE_PREFIX) == Quoted(tail)
  {
    var lead := OPENING + name + ", ";
    var s := OPENING + (name + (BETWEEN + tail));
    assert BETWEEN == ", " + MESSAGE_PREFIX;
    assert s == lead + MESSAGE_PREFIX + tail;
    assert s[|lead|..|lead| + 10] == MESSAGE_PREFIX && s[|lead| + 10..] == tail;
    assert s[..|lead| + 9] == OPENING + name + ", message: ";
    FirstOccurrence(s, MESSAGE_PREFIX, |lead|, 9);
  }

  /** Whatever follows it, a printed status parses to its code's entry, and to its message exactly when
      the debug form wrote no character as an escape other than those of quote, backslash, newline and tab. */
  lemma StatusRoundTrip(code: Code, message: string, unprintable: char -> bool, rest: string)
    ensures Parse(Print(code, message, unprintable) + rest).Some?
    ensures Parse(Print(code, message, unprintable) + rest).value.atom == NameEntry(NameOf(code)).0
    ensures Parse(Print(code, message, unprintable) + rest).value.grpc == NameEntry(NameOf(code)).1
    ensures Parse(Print(code, message, unprintable) + rest).value.message == message <==>
            AllRecoverable(message, unprintable)
  {
    var tail := EscapedAll(message, unprintable) + "\"" + rest;
    var name := NameOf(code);
    var s := OPENING + (name + (BETWEEN + tail));
    assert Print(code, message, unprintable) + rest == s;
    NamesAreLetters(code);
    MessageReadsBack(message, unprintable, rest);
    HeadParses(name, tail);
    ReadBackIsExact(message, unprintable);
  }

  lemma HeadParses(name: string, tail: string)
    requires IsName(name) && Quoted(tail).Some?
    ensures Parse(OPENING + (name + (BETWEEN + tail))) ==
            Some(Status(NameEntry(name).0, NameEntry(name).1, Quoted(tail).value))
  {
    StartsAsStatus(name + (BETWEEN + tail));
    CodeIsFound(name, BETWEEN + tail);
    MessageIsFound(name, tail);
    FieldsParse(OPENING + (name + (BETWEEN + tail)), name, Quoted(tail).value);
  }

  lemma StartsAsStatus(tail: string)
    ensures "Status {" <= OPENING + tail
  {
    assert (OPENING + tail)[..8] == "Status {";
  }

  lemma FieldsParse(s: string, name: string, message: string)
    requires "Status {" <= s && IsName(name)
    requires ExtractField(s, "code: ", ",") == Some(name) && QuotedField(s, MESSAGE_PREFIX) == Some(message)
    ensures Parse(s) == Some(Status(NameEntry(name).0, NameEntry(name).1, message))
  {
    assert Trim(name) == name;
  }

  /** A name of no code counts as unknown. */
  lemma OtherNamesAreUnknown(name: string)
    requires name != "Ok" && name != "Cancelled" && name != "Unknown" && name != "InvalidArgument"
    requires name != "DeadlineExceeded" && name != "NotFound" && name != "AlreadyExists"
    requires name != "PermissionDenied" && name != "ResourceExhausted" && name != "FailedPrecondition"
    requires name != "Aborted" && name != "OutOfRange" && name != "Unimplemented" && name != "Internal"
    requires name != "Unavailable" && name != "DataLoss" && name != "Unauthenticated"
    ensures NameEntry(name) == CodeEntry(Unknown)
  {
  }

  /** The table by name and the table by code give the same entry for every code but `Ok`. */
  lemma TablesAgree(code: Code)
    ensures NameEntry(NameOf(code)) == CodeEntry(code) <==> code != Code.Ok
    ensures NameEntry(NameOf(code)).1 == CodeEntry(code).1
  {
  }
}
