/** The one-line JSON form of FAPI messages: printer, substring-search parser, and fixture runner. */
module FapiJson {
  import opened Common
  import opened Fapi

  // ---------------------------------------------------------------- type names

  function TypeName(t: FapiMsgType): string {
    match t
    case CONFIG_REQ => "CONFIG_REQ"
    case CONFIG_RESP => "CONFIG_RESP"
    case START_REQ => "START_REQ"
    case STOP_REQ => "STOP_REQ"
    case SLOT_IND => "SLOT_IND"
    case UL_TTI_REQ => "UL_TTI_REQ"
    case DL_TTI_REQ => "DL_TTI_REQ"
    case TX_DATA_REQ => "TX_DATA_REQ"
    case RX_DATA_IND => "RX_DATA_IND"
    case CRC_IND => "CRC_IND"
    case ERROR_IND => "ERROR_IND"
  }

  function ParseType(s: string): (t: Option<FapiMsgType>) {
    if s == "CONFIG_REQ" then Some(CONFIG_REQ)
    else if s == "CONFIG_RESP" then Some(CONFIG_RESP)
    else if s == "START_REQ" then Some(START_REQ)
    else if s == "STOP_REQ" then Some(STOP_REQ)
    else if s == "SLOT_IND" then Some(SLOT_IND)
    else if s == "UL_TTI_REQ" then Some(UL_TTI_REQ)
    else if s == "DL_TTI_REQ" then Some(DL_TTI_REQ)
    else if s == "TX_DATA_REQ" then Some(TX_DATA_REQ)
    else if s == "RX_DATA_IND" then Some(RX_DATA_IND)
    else if s == "CRC_IND" then Some(CRC_IND)
    else if s == "ERROR_IND" then Some(ERROR_IND)
    else None
  }

  /** The eleven names. */
  lemma TypeNames()
    ensures TypeName(CONFIG_REQ) == "CONFIG_REQ" && TypeName(CONFIG_RESP) == "CONFIG_RESP"
    ensures TypeName(START_REQ) == "START_REQ" && TypeName(STOP_REQ) == "STOP_REQ" && TypeName(SLOT_IND) == "SLOT_IND"
    ensures TypeName(UL_TTI_REQ) == "UL_TTI_REQ" && TypeName(DL_TTI_REQ) == "DL_TTI_REQ"
    ensures TypeName(TX_DATA_REQ) == "TX_DATA_REQ" && TypeName(RX_DATA_IND) == "RX_DATA_IND"
    ensures TypeName(CRC_IND) == "CRC_IND" && TypeName(ERROR_IND) == "ERROR_IND"
  {
  }

  /** Nothing else is a type. */
  lemma ParsedIsName(s: string)
    ensures ParseType(s).Some? ==> s == TypeName(ParseType(s).value)
  {
  }

  lemma TypeRoundTrip(t: FapiMsgType)
    ensures ParseType(TypeName(t)) == Some(t)
    ensures NoQuotes(TypeName(t)) && |TypeName(t)| >= 2 && 'A' <= TypeName(t)[0] <= 'Z'
  {
    var n := TypeName(t);
    assert n[0] != 'Z';
    match t
    case CONFIG_REQ => assert |n| == 10;
    case CONFIG_RESP => assert |n| == 11;
    case START_REQ => assert |n| == 9 && n[2] == 'A';
    case STOP_REQ => assert |n| == 8 && n[2] == 'O';
    case SLOT_IND => assert |n| == 8 && n[1] == 'L';
    case UL_TTI_REQ => assert |n| == 10 && n[0] == 'U';
    case DL_TTI_REQ => assert |n| == 10 && n[0] == 'D';
    case TX_DATA_REQ => assert |n| == 11 && n[0] == 'T';
    case RX_DATA_IND => assert |n| == 11 && n[0] == 'R';
    case CRC_IND => assert |n| == 7;
    case ERROR_IND => assert |n| == 9 && n[0] == 'E';
  }

  predicate NoQuotes(s: string) { forall i | 0 <= i < |s| :: s[i] != '"' }

  // ---------------------------------------------------------------- decimal numbers

  predicate IsDigit(c: char) { '0' <= c <= '9' }

  function Digit(d: nat): (c: char)
    requires d < 10
    ensures IsDigit(c) && DigitValue(c) == d
  {
    ('0' as int + d) as char
  }

  function DigitValue(c: char): (d: nat)
    requires IsDigit(c)
    ensures d < 10
  {
    c as int - '0' as int
  }

  function Decimal(n: nat): (s: string)
    ensures s != "" && forall i | 0 <= i < |s| :: IsDigit(s[i])
  {
    if n < 10 then [Digit(n)] else Decimal(n / 10) + [Digit(n % 10)]
  }

  /** The value of a string of digits. */
  function DecimalValue(s: string): nat
    requires forall i | 0 <= i < |s| :: IsDigit(s[i])
  {
    if s == "" then 0 else 10 * DecimalValue(s[..|s| - 1]) + DigitValue(s[|s| - 1])
  }

  lemma {:induction false} DecimalRoundTrip(n: nat)
    ensures DecimalValue(Decimal(n)) == n
  {
    if n >= 10 {
      DecimalRoundTrip(n / 10);
      var s := Decimal(n);
      assert s[..|s| - 1] == Decimal(n / 10);
    } else {
      assert [Digit(n)][..0] == "";
    }
  }

  lemma {:induction false} NoLeadingZero(n: nat)
    ensures n > 0 ==> Decimal(n)[0] != '0'
    ensures n == 0 ==> Decimal(n) == "0"
  {
    if n >= 10 { NoLeadingZero(n / 10); }
  }

  const ULONG_LIMIT: nat := 0x1_0000_0000_0000_0000

  /** The leading digits of a string. */
  function LeadingDigits(s: string): (k: nat)
    ensures k <= |s| && forall i | 0 <= i < k :: IsDigit(s[i])
    ensures k < |s| ==> !IsDigit(s[k])
  {
    if s != "" && IsDigit(s[0]) then 1 + LeadingDigits(s[1..]) else 0
  }

  /** White space in the default locale: the blank, and tab to carriage return. */
  predicate IsSpace(c: char) { c == ' ' || 9 <= c as int <= 13 }

  function SkipSpaces(s: string): string
  {
    if s != "" && IsSpace(s[0]) then SkipSpaces(s[1..]) else s
  }

  /** std::stoul: leading white space, one optional sign, then as many digits as possible; a negated
      value wraps around; no digits and overflow are exceptions, and what follows is ignored. */
  function Stoul(s: string): Option<nat> {
    var text := SkipSpaces(s);
    var signed := text != "" && (text[0] == '-' || text[0] == '+');
    var body := if signed then text[1..] else text;
    var k := LeadingDigits(body);
    if k == 0 || DecimalValue(body[..k]) >= ULONG_LIMIT then None
    else
      var v := DecimalValue(body[..k]);
      Some(if signed && text[0] == '-' && v > 0 then ULONG_LIMIT - v else v)
  }

  /** White space and a plus sign before a printed number, and anything but a digit after it, do not
      change what is read. */
  lemma {:induction false} StoulReads(blanks: string, sign: bool, n: nat, rest: string)
    requires n < ULONG_LIMIT && (forall i | 0 <= i < |blanks| :: IsSpace(blanks[i]))
    requires rest != "" ==> !IsDigit(rest[0])
    ensures Stoul(blanks + ((if sign then "+" else "") + (Decimal(n) + rest))) == Some(n)
  {
    var tail := (if sign then "+" else "") + (Decimal(n) + rest);
    SpacesSkipped(blanks, tail);
    var body := Decimal(n) + rest;
    DigitsLead(Decimal(n), rest);
    assert sign ==> tail[1..] == body;
    assert !sign ==> tail == body;
    assert body[..|Decimal(n)|] == Decimal(n);
    DecimalRoundTrip(n);
  }

  /** A minus sign wraps around 2^64; 2^64 and more is refused with either sign. */
  lemma StoulNegative(n: nat, rest: string)
    requires rest != "" ==> !IsDigit(rest[0])
    ensures Stoul("-" + (Decimal(n) + rest))
      == if n >= 0x1_0000_0000_0000_0000 then None else Some((0x1_0000_0000_0000_0000 - n) % 0x1_0000_0000_0000_0000)
  {
    hide Decimal, DecimalValue, LeadingDigits, IsDigit;
    DigitsRead(n, rest);
    var body := Decimal(n) + rest;
    assert SkipSpaces("-" + body) == "-" + body;
    assert ("-" + body)[1..] == body;
    if n < ULONG_LIMIT { Complement(n); }
  }

  lemma StoulTooLarge(n: nat, rest: string)
    requires n >= 0x1_0000_0000_0000_0000 && (rest != "" ==> !IsDigit(rest[0]))
    ensures Stoul(Decimal(n) + rest).None?
  {
    hide Decimal, DecimalValue, LeadingDigits;
    DigitsRead(n, rest);
  }

  lemma DigitsRead(n: nat, rest: string)
    requires rest != "" ==> !IsDigit(rest[0])
    ensures var k := LeadingDigits(Decimal(n) + rest);
      k == |Decimal(n)| > 0 && DecimalValue((Decimal(n) + rest)[..k]) == n && IsDigit((Decimal(n) + rest)[0])
  {
    hide Decimal, DecimalValue, LeadingDigits;
    DigitsLead(Decimal(n), rest);
    assert (Decimal(n) + rest)[..|Decimal(n)|] == Decimal(n);
    DecimalRoundTrip(n);
  }

  lemma Complement(n: nat)
    requires n < ULONG_LIMIT
    ensures (ULONG_LIMIT - n) % ULONG_LIMIT == if n > 0 then ULONG_LIMIT - n else 0
  {
  }

  lemma {:induction false} SpacesSkipped(blanks: string, rest: string)
    requires (forall i | 0 <= i < |blanks| :: IsSpace(blanks[i])) && (rest != "" ==> !IsSpace(rest[0]))
    ensures SkipSpaces(blanks + rest) == rest
  {
    if blanks == "" {
      assert blanks + rest == rest;
    } else {
      assert (blanks + rest)[1..] == blanks[1..] + rest;
      SpacesSkipped(blanks[1..], rest);
    }
  }

  lemma {:induction false} DigitsLead(d: string, rest: string)
    requires (forall i | 0 <= i < |d| :: IsDigit(d[i])) && (rest != "" ==> !IsDigit(rest[0]))
    ensures LeadingDigits(d + rest) == |d|
  {
    if d == "" {
      assert d + rest == rest;
    } else {
      assert (d + rest)[1..] == d[1..] + rest;
      DigitsLead(d[1..], rest);
    }
  }

  // ---------------------------------------------------------------- searching

  /** The first position of pat in s, as std::string::find. */
  function Find(s: string, pat: string): (p: Option<nat>)
    ensures p.Some? ==> p.value + |pat| <= |s| && s[p.value..p.value + |pat|] == pat
  {
    if |pat| <= |s| && s[..|pat|] == pat then Some(0)
    else if s == "" then None
    else
      var r := Find(s[1..], pat);
      if r.None? then None else
        assert s[1..][r.value..r.value + |pat|] == s[r.value + 1..r.value + 1 + |pat|];
        Some(r.value + 1)
  }

  /** Find returns the first occurrence, and fails only when there is none. */
  lemma {:induction false} FindIsFirst(s: string, pat: string, i: nat)
    requires i + |pat| <= |s| && s[i..i + |pat|] == pat
    ensures Find(s, pat).Some? && Find(s, pat).value <= i
  {
    if i > 0 {
      assert s[1..][i - 1..i - 1 + |pat|] == s[i..i + |pat|];
      FindIsFirst(s[1..], pat, i - 1);
    } else {
      assert s[..|pat|] == s[0..0 + |pat|];
    }
  }

  /** The value that follows a colon: a quoted string, or digits and minus signs, after any blanks. */
  function ValueText(s: string): string {
    if s == "" then ""
    else if s[0] == '"' then
      var end := Find(s[1..], "\"");
      if end.Some? then s[1..][..end.value] else s[1..]
    else if s[0] == ' ' then ValueText(s[1..])
    else s[..NumberChars(s)]
  }

  /** Blanks before a value do not matter. */
  lemma {:induction false} BlanksSkipped(blanks: string, s: string)
    requires forall i | 0 <= i < |blanks| :: blanks[i] == ' '
    ensures ValueText(blanks + s) == ValueText(s)
  {
    if blanks == "" {
      assert blanks + s == s;
    } else {
      assert (blanks + s)[1..] == blanks[1..] + s;
      BlanksSkipped(blanks[1..], s);
    }
  }

  function NumberChars(s: string): (k: nat)
    ensures k <= |s|
  {
    if s != "" && (IsDigit(s[0]) || s[0] == '-') then 1 + NumberChars(s[1..]) else 0
  }

  function Quoted(key: string): string { "\"" + key + "\"" }

  /** The text of a field; empty when the key or its colon is missing. */
  function Get(line: string, key: string): string {
    var p := Find(line, Quoted(key));
    if p.None? then ""
    else
      var c := Find(line[p.value..], ":");
      if c.None? then "" else ValueText(line[p.value..][c.value + 1..])
  }

  /** Digits and minus signs from position p on. */
  method ScanNumber(line: string, p: nat) returns (r: string)
    requires p <= |line|
    ensures r == line[p..][..NumberChars(line[p..])]
  {
    var end := p;
    while end < |line| && (IsDigit(line[end]) || line[end] == '-')
      invariant p <= end <= |line| && NumberChars(line[p..]) == end - p + NumberChars(line[end..])
    {
      assert line[end..][1..] == line[end + 1..];
      end := end + 1;
    }
    r := line[p..end];
    assert r == line[p..][..end - p];
  }

  /** The value from position start on. */
  method ScanValue(line: string, start: nat) returns (r: string)
    requires start <= |line|
    ensures r == ValueText(line[start..])
  {
    hide Find, NumberChars;
    var p := start;
    while p < |line| && (line[p] == ' ' || line[p] == '"')
      invariant start <= p <= |line| && ValueText(line[p..]) == ValueText(line[start..])
    {
      assert line[p..][1..] == line[p + 1..];
      if line[p] == '"' {
        var end := Find(line[p + 1..], "\"");
        if end.None? { return line[p + 1..]; }
        return line[p + 1..][..end.value];
      }
      p := p + 1;
    }
    r := ScanNumber(line, p);
    if p == |line| { assert line[p..] == ""; }
  }

  method GetLoop(line: string, key: string) returns (r: string)
    ensures r == Get(line, key)
  {
    hide Find, ValueText;
    var f := Find(line, Quoted(key));
    if f.None? { return ""; }
    var c := Find(line[f.value..], ":");
    if c.None? { return ""; }
    var p := f.value + c.value + 1;
    assert line[f.value..][c.value + 1..] == line[p..];
    r := ScanValue(line, p);
  }

  /** A numeric field: the old value when the text is empty, an exception when it is no number. */
  function NumberField(text: string, limit: nat, default: nat): Option<nat>
    requires limit > 0
  {
    if text == "" then Some(default)
    else
      var v := Stoul(text);
      if v.None? then None else Some(v.value % limit)
  }

  const U16: nat := 0x1_0000
  const U32: nat := 0x1_0000_0000

  function FromJson(line: string): Option<FapiMessage> {
    var t := ParseType(Get(line, "type"));
    var version := NumberField(Get(line, "version"), U16, FAPI_MSG_VERSION);
    var sfn := NumberField(Get(line, "sfn"), U32, 0);
    var slot := NumberField(Get(line, "slot"), U32, 0);
    var handle := NumberField(Get(line, "handle"), U32, 0);
    if t.None? || version.None? || sfn.None? || slot.None? || handle.None? then None
    else Some(FapiMessage(version.value, t.value, sfn.value, slot.value, handle.value, [], line, false, ""))
  }

  method FapiFromJsonLine(line: string) returns (r: Option<FapiMessage>)
    ensures r == FromJson(line)
  {
    hide Get, Stoul, ParseType;
    var typeText := GetLoop(line, "type");
    var t := ParseType(typeText);
    if t.None? { return None; }
    var versionText := GetLoop(line, "version");
    var version := NumberField(versionText, U16, FAPI_MSG_VERSION);
    if version.None? { return None; }
    var sfnText := GetLoop(line, "sfn");
    var sfn := NumberField(sfnText, U32, 0);
    if sfn.None? { return None; }
    var slotText := GetLoop(line, "slot");
    var slot := NumberField(slotText, U32, 0);
    if slot.None? { return None; }
    var handleText := GetLoop(line, "handle");
    var handle := NumberField(handleText, U32, 0);
    if handle.None? { return None; }
    return Some(FapiMessage(version.value, t.value, sfn.value, slot.value, handle.value, [], line, false, ""));
  }

  /** What a parsed message contains: an absent or empty field has its default, 1 for the version and 0
      elsewhere; a number is reduced to 16 bits for the version and to 32 bits elsewhere; the line itself is
      kept, and the other fields are those of a fresh message. */
  lemma ParsedFields(line: string)
    ensures FromJson(line).Some? ==>
      var m := FromJson(line).value;
      && m.kind == ParseType(Get(line, "type")).value
      && m.version == (if Get(line, "version") == "" then 1 else Stoul(Get(line, "version")).value % 65536)
      && m.sfn == (if Get(line, "sfn") == "" then 0 else Stoul(Get(line, "sfn")).value % 4294967296)
      && m.slot == (if Get(line, "slot") == "" then 0 else Stoul(Get(line, "slot")).value % 4294967296)
      && m.handle == (if Get(line, "handle") == "" then 0 else Stoul(Get(line, "handle")).value % 4294967296)
      && m.jsonMeta == line && m.payload == [] && !m.crcOk && m.error == ""
    ensures FromJson(line).None? <==>
      || ParseType(Get(line, "type")).None?
      || exists key | key in ["version", "sfn", "slot", "handle"] :: Get(line, key) != "" && Stoul(Get(line, key)).None?
  {
    hide Get, Stoul, ParseType;
    var keys := ["version", "sfn", "slot", "handle"];
    assert keys[0] in keys && keys[1] in keys && keys[2] in keys && keys[3] in keys;
  }

  // ---------------------------------------------------------------- printing

  function Field(key: string, value: string): string { Quoted(key) + (":" + value) }

  function Tail(m: FapiMessage): string {
    "," + Field("crc_ok", if m.crcOk then "true" else "false")
      + (if m.error != "" then "," + Field("error", Quoted(m.error)) else "") + "}"
  }

  /** The text before each of the five parsed fields. */
  function Before(m: FapiMessage, k: nat): string
    requires k < 5
  {
    match k
    case 0 => "{"
    case 1 => Before(m, 0) + Field("version", Decimal(m.version)) + ","
    case 2 => Before(m, 1) + Field("type", Quoted(TypeName(m.kind))) + ","
    case 3 => Before(m, 2) + Field("sfn", Decimal(m.sfn)) + ","
    case _ => Before(m, 3) + Field("slot", Decimal(m.slot)) + ","
  }

  /** The printed line. */
  function ToJson(m: FapiMessage): string { Before(m, 4) + Field("handle", Decimal(m.handle)) + Tail(m) }

  /** The printed line in full. */
  lemma PrintedLine(m: FapiMessage)
    ensures ToJson(m) ==
      "{\"version\":" + Decimal(m.version) + ",\"type\":\"" + TypeName(m.kind) + "\",\"sfn\":" + Decimal(m.sfn)
      + ",\"slot\":" + Decimal(m.slot) + ",\"handle\":" + Decimal(m.handle)
      + (",\"crc_ok\":" + (if m.crcOk then "true" else "false")
         + (if m.error == "" then "" else ",\"error\":\"" + m.error + "\"") + "}")
  {
    hide Decimal, TypeName, Field, Quoted, Tail;
    var version, kind, sfn := Decimal(m.version), TypeName(m.kind), Decimal(m.sfn);
    var slot, handle := Decimal(m.slot), Decimal(m.handle);
    var b1 := "{\"version\":" + version;
    var b2 := b1 + ",\"type\":\"" + kind;
    var b3 := b2 + "\",\"sfn\":" + sfn;
    var b4 := b3 + ",\"slot\":" + slot;
    PrintVersion(version);
    assert Before(m, 1) == b1 + ",";
    PrintType(b1, kind);
    assert Before(m, 2) == b2 + "\",";
    PrintSfn(b2, sfn);
    assert Before(m, 3) == b3 + ",";
    PrintSlot(b3, slot);
    assert Before(m, 4) == b4 + ",";
    PrintHandle(b4, handle);
    PrintTail(m);
  }

  lemma PrintVersion(v: string)
    ensures "{" + Field("version", v) + "," == "{\"version\":" + v + ","
  {
  }

  lemma PrintType(b: string, t: string)
    ensures b + "," + Field("type", Quoted(t)) + "," == b + ",\"type\":\"" + t + "\","
  {
  }

  lemma PrintSfn(b: string, x: string)
    ensures b + "\"," + Field("sfn", x) + "," == b + "\",\"sfn\":" + x + ","
  {
  }

  lemma PrintSlot(b: string, x: string)
    ensures b + "," + Field("slot", x) + "," == b + ",\"slot\":" + x + ","
  {
  }

  lemma PrintHandle(b: string, x: string)
    ensures b + "," + Field("handle", x) == b + ",\"handle\":" + x
  {
  }

  lemma PrintTail(m: FapiMessage)
    ensures Tail(m) == ",\"crc_ok\":" + (if m.crcOk then "true" else "false")
      + (if m.error == "" then "" else ",\"error\":\"" + m.error + "\"") + "}"
  {
  }

  // ---------------------------------------------------------------- first occurrences

  /** pat does not occur at position i of a, whatever follows a. */
  predicate Mismatch(a: string, pat: string, i: nat)
    requires |pat| >= 3 && i < |a|
  {
    a[i] != pat[0] || (i + 1 < |a| && a[i + 1] != pat[1]) || (i + 2 < |a| && a[i + 2] != pat[2])
  }

  /** No occurrence of pat starts inside a, whatever follows a. */
  predicate Clean(a: string, pat: string)
    requires |pat| >= 3
  {
    forall i | 0 <= i < |a| :: Mismatch(a, pat, i)
  }

  lemma {:induction false} SkipClean(a: string, s: string, pat: string)
    requires |pat| >= 3 && Clean(a, pat) && pat <= s
    ensures Find(a + s, pat) == Some(|a|)
  {
    if a == "" {
      assert a + s == s;
    } else {
      assert (a + s)[1..] == a[1..] + s;
      forall i | 0 <= i < |a[1..]| ensures Mismatch(a[1..], pat, i) { assert Mismatch(a, pat, i + 1); }
      SkipClean(a[1..], s, pat);
      assert Mismatch(a, pat, 0);
      NotHere(a, s, pat);
    }
  }

  lemma NotHere(a: string, s: string, pat: string)
    requires |pat| >= 3 && a != "" && Mismatch(a, pat, 0) && pat <= s
    ensures (a + s)[..|pat|] != pat
  {
    var t := (a + s)[..|pat|];
    assert t[0] == a[0] && (1 < |a| ==> t[1] == a[1]) && (2 < |a| ==> t[2] == a[2]);
  }

  lemma CleanAppend(a: string, b: string, pat: string)
    requires |pat| >= 3 && Clean(a, pat) && Clean(b, pat)
    ensures Clean(a + b, pat)
  {
    forall i | 0 <= i < |a + b| ensures Mismatch(a + b, pat, i) {
      if i < |a| { assert Mismatch(a, pat, i); } else { assert Mismatch(b, pat, i - |a|); }
    }
  }

  /** Text without quotes is clean for every quoted key. */
  lemma PlainIsClean(a: string, pat: string)
    requires |pat| >= 3 && pat[0] == '"' && NoQuotes(a)
    ensures Clean(a, pat)
  {
  }

  lemma {:induction false} SkipPlain(a: string, s: string, c: char)
    requires (forall i | 0 <= i < |a| :: a[i] != c) && s != "" && s[0] == c
    ensures Find(a + s, [c]) == Some(|a|)
  {
    if a == "" {
      assert a + s == s && s[..1] == [c];
    } else {
      assert (a + s)[1..] == a[1..] + s;
      SkipPlain(a[1..], s, c);
      assert (a + s)[..1] == [a[0]];
    }
  }

  /** A field whose key does not occur earlier yields the text behind its colon. */
  lemma GetField(pre: string, key: string, rest: string)
    requires key != "" && Clean(pre, Quoted(key)) && forall i | 0 <= i < |key| :: key[i] != ':'
    ensures Get(pre + (Quoted(key) + (":" + rest)), key) == ValueText(rest)
  {
    hide Find, ValueText, Clean, Quoted;
    var q := Quoted(key);
    var s := q + (":" + rest);
    assert |q| >= 3 && (forall i | 0 <= i < |q| :: q[i] != ':') by { QuotedPlain(key); }
    SkipClean(pre, s, q);
    SkipPlain(q, ":" + rest, ':');
    assert (pre + s)[|pre|..] == s && s[|q| + 1..] == rest;
  }

  lemma QuotedPlain(key: string)
    requires key != "" && forall i | 0 <= i < |key| :: key[i] != ':'
    ensures |Quoted(key)| >= 3 && forall i | 0 <= i < |Quoted(key)| :: Quoted(key)[i] != ':'
  {
  }

  lemma {:induction false} NumberText(d: string, rest: string)
    requires d != "" && (forall i | 0 <= i < |d| :: IsDigit(d[i])) && rest != "" && rest[0] == ','
    ensures ValueText(d + rest) == d
  {
    NumberPrefix(d, rest);
    assert (d + rest)[..|d|] == d;
  }

  lemma {:induction false} NumberPrefix(d: string, rest: string)
    requires (forall i | 0 <= i < |d| :: IsDigit(d[i])) && rest != "" && rest[0] == ','
    ensures NumberChars(d + rest) == |d|
  {
    if d == "" {
      assert d + rest == rest;
    } else {
      assert (d + rest)[1..] == d[1..] + rest;
      NumberPrefix(d[1..], rest);
    }
  }

  lemma QuotedText(t: string, rest: string)
    requires NoQuotes(t)
    ensures ValueText("\"" + (t + ("\"" + rest))) == t
  {
    var s := "\"" + (t + ("\"" + rest));
    assert s[1..] == t + ("\"" + rest);
    SkipPlain(t, "\"" + rest, '"');
  }

  lemma NumberParses(n: nat, limit: nat, default: nat)
    requires n < limit <= ULONG_LIMIT
    ensures NumberField(Decimal(n), limit, default) == Some(n)
  {
    hide Stoul, Decimal;
    var d := Decimal(n);
    StoulReads("", false, n, "");
    assert "" + ("" + (d + "")) == d;
    ModUnique(n, limit, 0, n);
  }

  // ---------------------------------------------------------------- the round trip

  lemma DigitsNoQuotes(n: nat)
    ensures NoQuotes(Decimal(n))
  {
    var d := Decimal(n);
    forall i | 0 <= i < |d| ensures d[i] != '"' { assert IsDigit(d[i]); }
  }

  /** A quoted word followed by c is clean for a quoted key that differs in its first two letters. */
  lemma QuotedClean(t: string, c: char, key: string)
    requires NoQuotes(t) && |t| >= 2 && |key| >= 2 && c != key[0] && c != '"'
    requires t[0] != key[0] || t[1] != key[1]
    ensures Clean(Quoted(t) + [c], Quoted(key))
  {
    var a, pat := Quoted(t) + [c], Quoted(key);
    assert a[0] == '"' && a[1] == t[0] && a[2] == t[1] && a[|t| + 1] == '"' && a[|t| + 2] == c;
    assert pat[0] == '"' && pat[1] == key[0] && pat[2] == key[1];
    forall i | 0 <= i < |a| ensures Mismatch(a, pat, i) {
      if 0 < i <= |t| { assert a[i] == t[i - 1]; }
    }
  }

  /** A field and its comma are clean for another key. */
  lemma FieldClean(pre: string, name: string, value: string, key: string)
    requires |name| >= 2 && |key| >= 2 && NoQuotes(name) && (name[0] != key[0] || name[1] != key[1])
    requires key[0] != ':' && Clean(pre, Quoted(key)) && Clean(value + ",", Quoted(key))
    ensures Clean(pre + Field(name, value) + ",", Quoted(key))
  {
    QuotedClean(name, ':', key);
    CleanAppend(pre, Quoted(name) + ":", Quoted(key));
    CleanAppend(pre + (Quoted(name) + ":"), value + ",", Quoted(key));
    assert pre + Field(name, value) + "," == pre + (Quoted(name) + ":") + (value + ",");
  }

  lemma NumberFieldClean(pre: string, name: string, n: nat, key: string)
    requires |name| >= 2 && |key| >= 2 && NoQuotes(name) && (name[0] != key[0] || name[1] != key[1])
    requires key[0] != ':' && Clean(pre, Quoted(key))
    ensures Clean(pre + Field(name, Decimal(n)) + ",", Quoted(key))
  {
    DigitsNoQuotes(n);
    PlainIsClean(Decimal(n) + ",", Quoted(key));
    FieldClean(pre, name, Decimal(n), key);
  }

  /** No key occurs before its own field. */
  lemma KeysOccurFirst(m: FapiMessage)
    ensures Clean(Before(m, 0), Quoted("version")) && Clean(Before(m, 1), Quoted("type"))
    ensures Clean(Before(m, 2), Quoted("sfn")) && Clean(Before(m, 3), Quoted("slot"))
    ensures Clean(Before(m, 4), Quoted("handle"))
  {
    hide Clean, Quoted, Decimal, Field;
    OpeningClean("version");
    CleanUpTo(m, "type");
    CleanUpTo(m, "sfn");
    CleanUpTo(m, "slot");
    CleanUpTo(m, "handle");
  }

  lemma OpeningClean(key: string)
    requires key != ""
    ensures Clean("{", Quoted(key))
  {
    PlainIsClean("{", Quoted(key));
  }

  /** A key is clean for every prefix up to its own field. */
  lemma CleanUpTo(m: FapiMessage, key: string)
    requires key == "type" || key == "sfn" || key == "slot" || key == "handle"
    ensures Clean(Before(m, 1), Quoted(key))
    ensures key != "type" ==> Clean(Before(m, 2), Quoted(key))
    ensures key == "slot" || key == "handle" ==> Clean(Before(m, 3), Quoted(key))
    ensures key == "handle" ==> Clean(Before(m, 4), Quoted(key))
  {
    hide Clean, Decimal, Field;
    OpeningClean(key);
    NumberFieldClean(Before(m, 0), "version", m.version, key);
    if key != "type" {
      TypeRoundTrip(m.kind);
      QuotedClean(TypeName(m.kind), ',', key);
      FieldClean(Before(m, 1), "type", Quoted(TypeName(m.kind)), key);
      if key != "sfn" {
        NumberFieldClean(Before(m, 2), "sfn", m.sfn, key);
        if key != "slot" { NumberFieldClean(Before(m, 3), "slot", m.slot, key); }
      }
    }
  }

  lemma Regroup(pre: string, name: string, value: string, rest: string)
    ensures pre + Field(name, value) + "," + rest == pre + (Field(name, value) + ("," + rest))
    ensures Field(name, value) + rest == Quoted(name) + (":" + (value + rest))
  {
  }

  /** The text from the k-th field on. */
  function From(m: FapiMessage, k: nat): string
    requires k < 5
    decreases 5 - k
  {
    match k
    case 0 => Field("version", Decimal(m.version)) + ("," + From(m, 1))
    case 1 => Field("type", Quoted(TypeName(m.kind))) + ("," + From(m, 2))
    case 2 => Field("sfn", Decimal(m.sfn)) + ("," + From(m, 3))
    case 3 => Field("slot", Decimal(m.slot)) + ("," + From(m, 4))
    case _ => Field("handle", Decimal(m.handle)) + Tail(m)
  }

  lemma Splits(m: FapiMessage)
    ensures forall k | 0 <= k < 5 :: ToJson(m) == Before(m, k) + From(m, k)
  {
    hide Field, Decimal, Tail;
    assert ToJson(m) == Before(m, 4) + From(m, 4);
    Regroup(Before(m, 3), "slot", Decimal(m.slot), From(m, 4));
    Regroup(Before(m, 2), "sfn", Decimal(m.sfn), From(m, 3));
    Regroup(Before(m, 1), "type", Quoted(TypeName(m.kind)), From(m, 2));
    Regroup(Before(m, 0), "version", Decimal(m.version), From(m, 1));
    forall k | 0 <= k < 5 ensures ToJson(m) == Before(m, k) + From(m, k) {
      assert k == 0 || k == 1 || k == 2 || k == 3 || k == 4;
    }
  }

  /** A printed numeric field is found again. */
  lemma NumberFound(pre: string, key: string, n: nat, rest: string)
    requires key != "" && Clean(pre, Quoted(key)) && (forall i | 0 <= i < |key| :: key[i] != ':')
    requires rest != "" && rest[0] == ','
    ensures Get(pre + (Field(key, Decimal(n)) + rest), key) == Decimal(n)
  {
    hide Get, ValueText, Decimal, Clean;
    Regroup(pre, key, Decimal(n), rest);
    GetField(pre, key, Decimal(n) + rest);
    NumberText(Decimal(n), rest);
  }

  lemma TypeFound(pre: string, t: FapiMsgType, rest: string)
    requires Clean(pre, Quoted("type"))
    ensures Get(pre + (Field("type", Quoted(TypeName(t))) + rest), "type") == TypeName(t)
  {
    hide Get, ValueText, Clean;
    var n := TypeName(t);
    TypeRoundTrip(t);
    Regroup(pre, "type", Quoted(n), rest);
    GetField(pre, "type", Quoted(n) + rest);
    QuotedText(n, rest);
    assert Quoted(n) + rest == "\"" + (n + ("\"" + rest));
  }

  lemma VersionAndTypeFound(m: FapiMessage)
    ensures Get(ToJson(m), "version") == Decimal(m.version) && Get(ToJson(m), "type") == TypeName(m.kind)
  {
    Splits(m);
    KeysOccurFirst(m);
    hide Get, Clean, Field, Decimal, Tail, Before, TypeName, ToJson;
    assert ToJson(m) == Before(m, 0) + From(m, 0) && ToJson(m) == Before(m, 1) + From(m, 1);
    NumberFound(Before(m, 0), "version", m.version, "," + From(m, 1));
    TypeFound(Before(m, 1), m.kind, "," + From(m, 2));
  }

  lemma SfnFound(m: FapiMessage)
    ensures Get(ToJson(m), "sfn") == Decimal(m.sfn)
  {
    Splits(m);
    KeysOccurFirst(m);
    hide Get, Clean, Field, Decimal, Tail, Before, TypeName, ToJson;
    assert ToJson(m) == Before(m, 2) + From(m, 2);
    NumberFound(Before(m, 2), "sfn", m.sfn, "," + From(m, 3));
  }

  lemma SlotFound(m: FapiMessage)
    ensures Get(ToJson(m), "slot") == Decimal(m.slot)
  {
    Splits(m);
    KeysOccurFirst(m);
    hide Get, Clean, Field, Decimal, Tail, Before, TypeName, ToJson;
    assert ToJson(m) == Before(m, 3) + From(m, 3);
    NumberFound(Before(m, 3), "slot", m.slot, "," + From(m, 4));
  }

  lemma HandleFound(m: FapiMessage)
    ensures Get(ToJson(m), "handle") == Decimal(m.handle)
  {
    Splits(m);
    KeysOccurFirst(m);
    TailStarts(m);
    hide Get, Clean, Field, Decimal, Tail, Before, TypeName, ToJson;
    assert ToJson(m) == Before(m, 4) + From(m, 4);
    NumberFound(Before(m, 4), "handle", m.handle, Tail(m));
  }

  lemma TailStarts(m: FapiMessage)
    ensures Tail(m) != "" && Tail(m)[0] == ','
  {
  }

  /** Parsing a printed message restores version, type, frame, slot and handle, whatever the error
      text contains. */
  lemma JsonRoundTrip(m: FapiMessage)
    requires m.version < U16 && m.sfn < U32 && m.slot < U32 && m.handle < U32
    ensures FromJson(ToJson(m)) ==
      Some(FapiMessage(m.version, m.kind, m.sfn, m.slot, m.handle, [], ToJson(m), false, ""))
  {
    hide Get, Decimal, TypeName, NumberField, ToJson, ParseType;
    VersionAndTypeFound(m);
    SfnFound(m);
    SlotFound(m);
    HandleFound(m);
    TypeRoundTrip(m.kind);
    NumberParses(m.version, U16, FAPI_MSG_VERSION);
    NumberParses(m.sfn, U32, 0);
    NumberParses(m.slot, U32, 0);
    NumberParses(m.handle, U32, 0);
  }

  // ---------------------------------------------------------------- fixtures

  /** Session and error count after a list of lines: an unreadable line counts as an error and leaves
      the session alone. */
  function Fixture(lines: seq<string>, s: Session): (Session, nat) {
    if lines == [] then (s, 0)
    else
      var (t, n) := Fixture(lines[..|lines| - 1], s);
      var m := FromJson(lines[|lines| - 1]);
      if m.None? then (t, n + 1) else (Next(t, m.value), if Fapi.Accepts(t, m.value) then n else n + 1)
  }

  method FapiRunFixtureLines(lines: seq<string>, session: FapiSession) returns (errors: nat)
    modifies session
    ensures (session.Snapshot(), errors) == Fixture(lines, old(session.Snapshot()))
  {
    hide FromJson, Next, Accepts;
    errors := 0;
    for i := 0 to |lines|
      invariant (session.Snapshot(), errors) == Fixture(lines[..i], old(session.Snapshot()))
    {
      assert lines[..i + 1][..i] == lines[..i];
      var m := FapiFromJsonLine(lines[i]);
      if m.None? {
        errors := errors + 1;
      } else {
        ghost var before := session.Snapshot();
        var out := session.Handle(m.value);
        ReplyIsError(before, m.value);
        if out.kind == ERROR_IND { errors := errors + 1; }
      }
    }
    assert lines[..|lines|] == lines;
  }

  /** An unreadable line counts as one error and leaves the session alone. */
  lemma UnreadableLine(lines: seq<string>, line: string, s: Session)
    requires FromJson(line).None?
    ensures Fixture(lines + [line], s) == (Fixture(lines, s).0, Fixture(lines, s).1 + 1)
  {
    hide FromJson;
    assert (lines + [line])[..|lines|] == lines;
  }

  lemma ReplyIsError(s: Session, m: FapiMessage)
    ensures ReplyKind(s, m) == ERROR_IND <==> !Accepts(s, m)
  {
  }

  /** The number of messages of a history that are not accepted. */
  function RejectedCount(ms: seq<FapiMessage>): nat {
    if ms == [] then 0
    else
      var n := |ms| - 1;
      RejectedCount(ms[..n]) + (if Fapi.Accepts(Run(ms[..n]), ms[n]) then 0 else 1)
  }

  /** Replaying printed messages leads to the session of the messages themselves, and counts exactly
      those that were not accepted as errors. */
  lemma {:induction false} FixtureOfPrinted(ms: seq<FapiMessage>)
    requires forall i | 0 <= i < |ms| ::
      ms[i].version < U16 && ms[i].sfn < U32 && ms[i].slot < U32 && ms[i].handle < U32
    ensures Fixture(Printed(ms), RESET) == (Run(ms), RejectedCount(ms))
  {
    hide FromJson, ToJson, Next, Accepts;
    if ms != [] {
      var n := |ms| - 1;
      FixtureOfPrinted(ms[..n]);
      JsonRoundTrip(ms[n]);
      assert Printed(ms)[..n] == Printed(ms[..n]);
      SameTransition(Run(ms[..n]), ms[n], FromJson(ToJson(ms[n])).value);
    }
  }

  function Printed(ms: seq<FapiMessage>): (ls: seq<string>)
    ensures |ls| == |ms|
  {
    seq(|ms|, i requires 0 <= i < |ms| => ToJson(ms[i]))
  }

  /** A transition depends on version and type only. */
  lemma SameTransition(s: Session, m: FapiMessage, m': FapiMessage)
    requires m.version == m'.version && m.kind == m'.kind
    ensures Next(s, m) == Next(s, m') && (Accepts(s, m) <==> Accepts(s, m'))
  {
  }
}
