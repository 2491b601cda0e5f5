/**
 * The part of JSON (RFC 8259) that the derived encodings of the duplikat types
 * use: strings and objects. `Print` is the compact writer that
 * `serde_json::to_string` uses (no whitespace, members in the order given);
 * `Parse` reads the same subset back, allowing the whitespace of section 2 of
 * RFC 8259 between tokens and refusing trailing characters, as
 * `serde_json::from_str` does. Strings are restricted to ones that need no
 * escaping: the writer would escape them and the reader would unescape them,
 * and that code belongs to serde_json.
 */
module Json {
  import opened Wrappers

  datatype Value = Str(s: string) | Obj(members: seq<Member>)
  datatype Member = Member(key: string, value: Value)

  /** What can go wrong, in parsing and in decoding a typed value from a Value. */
  datatype Error =
    | EndOfInput
    | Unexpected(c: char)
    | EscapeInString
    | ControlInString(c: char)
    | TrailingCharacters
    | MissingField(field: string)
    | DuplicateField(field: string)
    | InvalidType
    | UnknownVariant(variant: string)

  /** A character that serde_json writes inside a string as it is: anything but
      the quotation mark, the reverse solidus and U+0000 through U+001F. */
  predicate PlainChar(c: char) {
    c != '"' && c != '\\' && c >= ' '
  }

  predicate EscapeFree(s: string) {
    s == [] || (PlainChar(s[0]) && EscapeFree(s[1..]))
  }

  /** A string is escape-free when each of its characters is plain. */
  lemma {:induction false} CharsEscapeFree(s: string)
    requires forall i :: 0 <= i < |s| ==> PlainChar(s[i])
    ensures EscapeFree(s)
  {
    if s != [] {
      assert forall i :: 0 <= i < |s[1..]| ==> s[1..][i] == s[i + 1];
      CharsEscapeFree(s[1..]);
    }
  }

  /** Every string and every key in `v` is escape-free. */
  predicate Printable(v: Value)
    decreases v
  {
    match v
    case Str(s) => EscapeFree(s)
    case Obj(ms) => PrintableMembers(ms)
  }

  predicate PrintableMembers(ms: seq<Member>)
    decreases ms
  {
    forall i :: 0 <= i < |ms| ==> EscapeFree(ms[i].key) && Printable(ms[i].value)
  }

  function Quote(s: string): string {
    "\"" + s + "\""
  }

  /** Compact serialisation: no whitespace, members in sequence order. */
  function Print(v: Value): string
    decreases v
  {
    match v
    case Str(s) => Quote(s)
    case Obj(ms) => "{" + PrintMembers(ms) + "}"
  }

  /** The members of an object, separated by commas. */
  function PrintMembers(ms: seq<Member>): string
    decreases ms
  {
    if ms == [] then ""
    else
      Quote(ms[0].key) + ":" + Print(ms[0].value)
      + (if |ms| == 1 then "" else "," + PrintMembers(ms[1..]))
  }

  /** Insignificant whitespace (section 2 of RFC 8259). */
  predicate IsWs(c: char) {
    c == ' ' || c == '\t' || c == '\n' || c == '\r'
  }

  /** Drops the leading whitespace. */
  function SkipWs(s: string): (r: string)
    ensures |r| <= |s|
    ensures r == [] || !IsWs(r[0])
    ensures s != [] && !IsWs(s[0]) ==> r == s
  {
    if s != [] && IsWs(s[0]) then SkipWs(s[1..]) else s
  }

  /** Reads the contents of a string whose opening quote has been consumed, up
      to the closing quote; also returns what follows that quote. */
  function ScanString(s: string): (r: Result<(string, string), Error>)
    ensures r.Success? ==> EscapeFree(r.value.0) && s == r.value.0 + "\"" + r.value.1
  {
    if s == [] then Failure(EndOfInput)
    else if s[0] == '"' then Success(([], s[1..]))
    else if s[0] == '\\' then Failure(EscapeInString)
    else if s[0] < ' ' then Failure(ControlInString(s[0]))
    else
      match ScanString(s[1..])
      case Failure(e) => Failure(e)
      case Success((t, rest)) => Success(([s[0]] + t, rest))
  }

  /** A string token at the very start of `s`. */
  function ParseString(s: string): (r: Result<(string, string), Error>)
    ensures r.Success? ==> EscapeFree(r.value.0) && s == Quote(r.value.0) + r.value.1
  {
    if s == [] then Failure(EndOfInput)
    else if s[0] != '"' then Failure(Unexpected(s[0]))
    else ScanString(s[1..])
  }

  /** One value after optional whitespace; returns the value and the input
      that follows it. Each successful parse consumes input, which is what
      lets the members of an object be read one after another. */
  function ParseValue(s: string): (r: Result<(Value, string), Error>)
    ensures r.Success? ==> |r.value.1| < |s|
    ensures r.Success? ==> Printable(r.value.0)
    decreases |s|, 2
  {
    var t := SkipWs(s);
    if t == [] then Failure(EndOfInput)
    else if t[0] == '"' then
      match ParseString(t)
      case Failure(e) => Failure(e)
      case Success((str, rest)) => Success((Str(str), rest))
    else if t[0] == '{' then
      var u := SkipWs(t[1..]);
      if u == [] then Failure(EndOfInput)
      else if u[0] == '}' then Success((Obj([]), u[1..]))
      else
        match ParseMembers(u)
        case Failure(e) => Failure(e)
        case Success((ms, rest)) => Success((Obj(ms), rest))
    else Failure(Unexpected(t[0]))
  }

  /** One `key : value` pair, after optional whitespace. */
  function ParseMember(s: string): (r: Result<(Member, string), Error>)
    ensures r.Success? ==> |r.value.1| < |s|
    ensures r.Success? ==> EscapeFree(r.value.0.key) && Printable(r.value.0.value)
    decreases |s|, 0
  {
    match ParseString(SkipWs(s))
    case Failure(e) => Failure(e)
    case Success((key, r1)) =>
      var r2 := SkipWs(r1);
      if r2 == [] then Failure(EndOfInput)
      else if r2[0] != ':' then Failure(Unexpected(r2[0]))
      else
        match ParseValue(r2[1..])
        case Failure(e) => Failure(e)
        case Success((v, r3)) => Success((Member(key, v), r3))
  }

  /** The members of an object whose opening brace has been consumed, through
      the closing brace: pairs separated by commas. A trailing comma is an
      error, as in serde_json. */
  function ParseMembers(s: string): (r: Result<(seq<Member>, string), Error>)
    ensures r.Success? ==> |r.value.1| < |s|
    ensures r.Success? ==> r.value.0 != []
    ensures r.Success? ==> PrintableMembers(r.value.0)
    decreases |s|, 1
  {
    match ParseMember(s)
    case Failure(e) => Failure(e)
    case Success((m, r1)) =>
      var r2 := SkipWs(r1);
      if r2 == [] then Failure(EndOfInput)
      else if r2[0] == '}' then Success(([m], r2[1..]))
      else if r2[0] != ',' then Failure(Unexpected(r2[0]))
      else
        match ParseMembers(r2[1..])
        case Failure(e) => Failure(e)
        case Success((more, r3)) => Success(([m] + more, r3))
  }

  /** A whole text holding one value and nothing else but whitespace. */
  function Parse(s: string): (r: Result<Value, Error>)
    ensures r.Success? ==> Printable(r.value)
  {
    match ParseValue(s)
    case Failure(e) => Failure(e)
    case Success((v, rest)) =>
      if SkipWs(rest) == [] then Success(v) else Failure(TrailingCharacters)
  }

  /** Printed text starts with a quote or a brace, never with whitespace. */
  lemma PrintStarts(v: Value, t: string)
    ensures Print(v) + t != [] && (Print(v) + t)[0] in {'"', '{'}
    ensures SkipWs(Print(v) + t) == Print(v) + t
  {
  }

  lemma PrintMembersStarts(ms: seq<Member>, t: string)
    requires ms != []
    ensures PrintMembers(ms) + t != [] && (PrintMembers(ms) + t)[0] == '"'
    ensures SkipWs(PrintMembers(ms) + t) == PrintMembers(ms) + t
  {
  }

  lemma {:induction false} ScanPrinted(s: string, t: string)
    requires EscapeFree(s)
    ensures ScanString(s + "\"" + t) == Success((s, t))
  {
    if s != [] {
      assert (s + "\"" + t)[1..] == s[1..] + "\"" + t;
      ScanPrinted(s[1..], t);
      assert [s[0]] + s[1..] == s;
    }
  }

  lemma ParseStringPrinted(s: string, t: string)
    requires EscapeFree(s)
    ensures ParseString(Quote(s) + t) == Success((s, t))
  {
    assert (Quote(s) + t)[1..] == s + "\"" + t;
    ScanPrinted(s, t);
  }

  /** The parser reads back exactly what the printer wrote, whatever follows. */
  lemma {:induction false} ParsePrinted(v: Value, t: string)
    requires Printable(v)
    ensures ParseValue(Print(v) + t) == Success((v, t))
    decreases v, 1
  {
    var text := Print(v) + t;
    PrintStarts(v, t);
    match v
    case Str(s) =>
      ParseStringPrinted(s, t);
    case Obj(ms) =>
      assert text[1..] == PrintMembers(ms) + "}" + t;
      if ms == [] {
        assert SkipWs(text[1..]) == text[1..];
      } else {
        PrintMembersStarts(ms, "}" + t);
        assert PrintMembers(ms) + "}" + t == PrintMembers(ms) + ("}" + t);
        ParseMembersPrinted(ms, t);
      }
  }

  lemma {:induction false} ParseMemberPrinted(m: Member, t: string)
    requires EscapeFree(m.key) && Printable(m.value)
    ensures ParseMember(Quote(m.key) + ":" + Print(m.value) + t) == Success((m, t))
    decreases m, 0
  {
    var after := ":" + (Print(m.value) + t);
    Assoc(Quote(m.key), ":", Print(m.value) + t);
    Assoc(Quote(m.key) + ":", Print(m.value), t);
    ParseStringPrinted(m.key, after);
    QuoteStarts(m.key, after);
    ColonStarts(Print(m.value) + t);
    ParsePrinted(m.value, t);
    ParseMemberStep(Quote(m.key) + after, m.key, after, m.value, t);
  }

  /** How `ParseMember` reads a key, the colon right after it and a value. */
  lemma ParseMemberStep(s: string, key: string, r1: string, v: Value, r3: string)
    requires SkipWs(s) == s && ParseString(s) == Success((key, r1))
    requires SkipWs(r1) == r1 && r1 != [] && r1[0] == ':'
    requires ParseValue(r1[1..]) == Success((v, r3))
    ensures ParseMember(s) == Success((Member(key, v), r3))
  {
  }

  lemma QuoteStarts(s: string, t: string)
    ensures SkipWs(Quote(s) + t) == Quote(s) + t
  {
    assert (Quote(s) + t)[0] == '"';
  }

  lemma ColonStarts(t: string)
    ensures SkipWs(":" + t) == ":" + t && (":" + t)[0] == ':' && (":" + t)[1..] == t
  {
  }

  lemma ParseMembersLast(s: string, m: Member, t: string)
    requires ParseMember(s) == Success((m, "}" + t))
    ensures ParseMembers(s) == Success(([m], t))
  {
    assert SkipWs("}" + t) == "}" + t;
  }

  lemma ParseMembersNext(s: string, m: Member, u: string, more: seq<Member>, t: string)
    requires ParseMember(s) == Success((m, "," + u))
    requires ParseMembers(u) == Success((more, t))
    ensures ParseMembers(s) == Success(([m] + more, t))
  {
    assert SkipWs("," + u) == "," + u;
    assert ("," + u)[1..] == u;
  }

  lemma {:induction false} ParseMembersPrinted(ms: seq<Member>, t: string)
    requires ms != []
    requires PrintableMembers(ms)
    ensures ParseMembers(PrintMembers(ms) + "}" + t) == Success((ms, t))
    decreases ms
  {
    if |ms| == 1 {
      ParseLastMemberPrinted(ms, t);
    } else {
      ParseMembersPrinted(ms[1..], t);
      ParseNextMemberPrinted(ms, t);
    }
  }

  /** A single member and the closing brace. */
  lemma ParseLastMemberPrinted(ms: seq<Member>, t: string)
    requires |ms| == 1 && PrintableMembers(ms)
    ensures ParseMembers(PrintMembers(ms) + "}" + t) == Success((ms, t))
  {
    var m := ms[0];
    PrintMembersSplit(ms, t);
    ParseMemberPrinted(m, "}" + t);
    ParseMembersLast(PrintMembers(ms) + "}" + t, m, t);
    assert [m] == ms;
  }

  /** The first member, a comma and the members the rest of the text holds. */
  lemma ParseNextMemberPrinted(ms: seq<Member>, t: string)
    requires |ms| > 1 && PrintableMembers(ms)
    requires ParseMembers(PrintMembers(ms[1..]) + "}" + t) == Success((ms[1..], t))
    ensures ParseMembers(PrintMembers(ms) + "}" + t) == Success((ms, t))
  {
    var m := ms[0];
    var u := PrintMembers(ms[1..]) + "}" + t;
    var s := PrintMembers(ms) + "}" + t;
    PrintMembersSplit(ms, t);
    assert EscapeFree(m.key) && Printable(m.value);
    ParseMemberPrinted(m, "," + u);
    assert ParseMember(s) == Success((m, "," + u));
    ParseMembersNext(s, m, u, ms[1..], t);
    assert [m] + ms[1..] == ms;
  }

  /** The printed members followed by the closing brace: the first member,
      then either the brace or a comma and the other members. */
  lemma PrintMembersSplit(ms: seq<Member>, t: string)
    requires ms != []
    ensures |ms| == 1 ==>
      PrintMembers(ms) + "}" + t == Quote(ms[0].key) + ":" + Print(ms[0].value) + ("}" + t)
    ensures |ms| > 1 ==>
      PrintMembers(ms) + "}" + t
      == Quote(ms[0].key) + ":" + Print(ms[0].value) + ("," + (PrintMembers(ms[1..]) + "}" + t))
  {
    var a := Quote(ms[0].key) + ":" + Print(ms[0].value);
    if |ms| == 1 {
      assert PrintMembers(ms) == a + "";
      assert a + "" == a;
      Assoc(a, "}", t);
    } else {
      var b := PrintMembers(ms[1..]);
      assert PrintMembers(ms) == a + ("," + b);
      Assoc(a, "," + b, "}");
      Assoc(",", b, "}");
      Assoc(a, "," + (b + "}"), t);
      Assoc(",", b + "}", t);
    }
  }

  /** Concatenation is associative: the one fact the proofs about printed
      text need, stated for three pieces and applied piece by piece. */
  lemma Assoc(a: string, b: string, c: string)
    ensures a + b + c == a + (b + c)
  {
  }

  /** Printing then parsing is the identity on printable values. */
  lemma RoundTrip(v: Value)
    requires Printable(v)
    ensures Parse(Print(v)) == Success(v)
  {
    ParsePrinted(v, "");
    assert Print(v) + "" == Print(v);
  }
}
