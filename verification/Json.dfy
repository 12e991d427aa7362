/** The JSON text the probe emits: a printer that escapes as `write_json_string` does, and a reader of that
    subset (sections 4, 6 and 7 of RFC 8259). A byte is the character with the same code. */
module Json {
  import opened Options
  import opened Numerals

  datatype Json = Text(s: string) | Number(n: nat) | True | Singleton(item: string)

  datatype Field = Field(name: string, value: Json)

  predicate IsByte(c: char) {
    (c as int) < 256
  }

  predicate Bytes(s: string) {
    forall i | 0 <= i < |s| :: IsByte(s[i])
  }

  // ----- Strings -----

  predicate Plain(c: char) {
    ' ' <= c <= '~' && c != '\"' && c != '\\'
  }

  function EscapeByte(c: char): string
    requires IsByte(c)
  {
    if c == '\"' then "\\\""
    else if c == '\\' then "\\\\"
    else if ' ' <= c <= '~' then [c]
    else "\\u00" + [DigitChar(c as int / 16)] + [DigitChar(c as int % 16)]
  }

  function Escaped(s: string): string
    requires Bytes(s)
  {
    if s == [] then [] else EscapeByte(s[0]) + Escaped(s[1..])
  }

  function PrintString(s: string): string
    requires Bytes(s)
  {
    "\"" + Escaped(s) + "\""
  }

  /** The characters up to the closing quote, and what follows it. */
  function ReadChars(s: string): (r: Option<(string, string)>)
    ensures r.Some? ==> |r.value.1| < |s|
  {
    if s == [] then None
    else if s[0] == '\"' then Some(([], s[1..]))
    else if Plain(s[0]) then Prepend(s[0], ReadChars(s[1..]))
    else if |s| >= 2 && s[0] == '\\' && (s[1] == '\"' || s[1] == '\\') then Prepend(s[1], ReadChars(s[2..]))
    else if |s| >= 6 && s[..4] == "\\u00" && IsDigit(s[4], 16) && IsDigit(s[5], 16) then
      Prepend((DigitValue(s[4]) * 16 + DigitValue(s[5])) as char, ReadChars(s[6..]))
    else None
  }

  function Prepend(c: char, r: Option<(string, string)>): Option<(string, string)> {
    match r
    case Some((t, rest)) => Some(([c] + t, rest))
    case None => None
  }

  function ReadString(s: string): (r: Option<(string, string)>)
    ensures r.Some? ==> |r.value.1| < |s|
  {
    if s == [] || s[0] != '\"' then None else ReadChars(s[1..])
  }

  lemma EscapeReadsBack(c: char, tail: string)
    requires IsByte(c)
    ensures ReadChars(EscapeByte(c) + tail) == Prepend(c, ReadChars(tail))
  {
    var e := EscapeByte(c);
    var s := e + tail;
    assert s[|e|..] == tail;
    if !(' ' <= c <= '~') {
      DigitRoundTrip(c as int / 16, 16);
      DigitRoundTrip(c as int % 16, 16);
      assert s[..4] == "\\u00";
      assert (c as int / 16 * 16 + c as int % 16) as char == c;
    }
  }

  lemma QuoteEnds(rest: string)
    ensures ReadChars("\"" + rest) == Some(([], rest))
  {
    assert ("\"" + rest)[1..] == rest;
  }

  lemma {:induction false} EscapedReadsBack(s: string, rest: string)
    requires Bytes(s)
    ensures ReadChars(Escaped(s) + ("\"" + rest)) == Some((s, rest))
  {
    hide ReadChars, EscapeByte;
    if s == [] {
      QuoteEnds(rest);
      assert Escaped(s) + ("\"" + rest) == "\"" + rest;
    } else {
      var more := Escaped(s[1..]) + ("\"" + rest);
      EscapedReadsBack(s[1..], rest);
      EscapeReadsBack(s[0], more);
      assert (EscapeByte(s[0]) + Escaped(s[1..])) + ("\"" + rest) == EscapeByte(s[0]) + more;
      assert [s[0]] + s[1..] == s;
    }
  }

  /** Any byte string survives printing and reading. */
  lemma StringReadsBack(s: string, rest: string)
    requires Bytes(s)
    ensures ReadString(PrintString(s) + rest) == Some((s, rest))
  {
    var t := PrintString(s) + rest;
    assert t[1..] == Escaped(s) + ("\"" + rest);
    EscapedReadsBack(s, rest);
  }

  lemma {:induction false} EscapedConcat(s: string, t: string)
    requires Bytes(s) && Bytes(t)
    ensures Escaped(s + t) == Escaped(s) + Escaped(t)
  {
    hide EscapeByte;
    if s == [] {
      assert s + t == t;
    } else {
      EscapedConcat(s[1..], t);
      assert (s + t)[1..] == s[1..] + t;
    }
  }

  /** An escape has at most six characters, and a string of plain characters needs none. */
  lemma {:induction false} EscapedLength(s: string)
    requires Bytes(s)
    ensures |s| <= |Escaped(s)| <= 6 * |s|
    ensures (forall i | 0 <= i < |s| :: Plain(s[i])) ==> Escaped(s) == s
  {
    if s != [] {
      EscapedLength(s[1..]);
      assert [s[0]] + s[1..] == s;
    }
  }

  predicate Printable(s: string) {
    forall i | 0 <= i < |s| :: ' ' <= s[i] <= '~'
  }

  lemma {:induction false} EscapedIsPrintable(s: string)
    requires Bytes(s)
    ensures Printable(Escaped(s)) && Printable(PrintString(s))
  {
    if s != [] {
      EscapedIsPrintable(s[1..]);
      assert Printable(EscapeByte(s[0]));
    }
  }

  // ----- Numbers -----

  function DigitRun(s: string): (n: nat)
    ensures n <= |s| && AllDigits(s[..n], 10)
  {
    if s == [] || !IsDigit(s[0], 10) then 0 else 1 + DigitRun(s[1..])
  }

  /** An unsigned integer without a leading zero. */
  function ReadNumber(s: string): (r: Option<(nat, string)>)
    ensures r.Some? ==> |r.value.1| < |s|
  {
    var n := DigitRun(s);
    if n == 0 || (n > 1 && s[0] == '0') then None else Some((Value(s[..n], 10), s[n..]))
  }

  lemma {:induction false} DigitRunOf(digits: string, rest: string)
    requires AllDigits(digits, 10) && (rest == [] || !IsDigit(rest[0], 10))
    ensures DigitRun(digits + rest) == |digits|
  {
    if digits == [] {
      assert digits + rest == rest;
    } else {
      assert (digits + rest)[1..] == digits[1..] + rest;
      DigitRunOf(digits[1..], rest);
    }
  }

  lemma NumberReadsBack(n: nat, rest: string)
    requires rest == [] || !IsDigit(rest[0], 10)
    ensures ReadNumber(Decimal(n) + rest) == Some((n, rest))
  {
    NumeralDenotes(n, 10);
    DigitRunOf(Decimal(n), rest);
    assert (Decimal(n) + rest)[..|Decimal(n)|] == Decimal(n);
  }

  // ----- Values -----

  predicate ValueBytes(v: Json) {
    match v
    case Text(s) => Bytes(s)
    case Singleton(s) => Bytes(s)
    case _ => true
  }

  function PrintValue(v: Json): string
    requires ValueBytes(v)
  {
    match v
    case Text(s) => PrintString(s)
    case Number(n) => Decimal(n)
    case True => "true"
    case Singleton(s) => "[" + PrintString(s) + "]"
  }

  function ReadValue(s: string): (r: Option<(Json, string)>)
    ensures r.Some? ==> |r.value.1| < |s|
  {
    if s == [] then None
    else if s[0] == '\"' then
      match ReadString(s)
      case Some((t, rest)) => Some((Text(t), rest))
      case None => None
    else if IsDigit(s[0], 10) then
      match ReadNumber(s)
      case Some((n, rest)) => Some((Number(n), rest))
      case None => None
    else if "true" <= s then Some((True, s[4..]))
    else if s[0] == '[' then
      match ReadString(s[1..])
      case Some((t, rest)) => if rest != [] && rest[0] == ']' then Some((Singleton(t), rest[1..])) else None
      case None => None
    else None
  }

  lemma NumberValueReadsBack(n: nat, rest: string)
    requires rest == [] || !IsDigit(rest[0], 10)
    ensures ReadValue(Decimal(n) + rest) == Some((Number(n), rest))
  {
    hide ReadNumber, ReadString;
    NumeralDenotes(n, 10);
    NumberReadsBack(n, rest);
    var s := Decimal(n) + rest;
    assert s[0] == Decimal(n)[0] && IsDigit(s[0], 10);
  }

  lemma SingletonReadsBack(t: string, rest: string)
    requires Bytes(t)
    ensures ReadValue(PrintValue(Singleton(t)) + rest) == Some((Singleton(t), rest))
  {
    hide PrintString, ReadString;
    var s := PrintValue(Singleton(t)) + rest;
    StringReadsBack(t, "]" + rest);
    assert s[1..] == PrintString(t) + ("]" + rest);
    assert s[0] == '[' && ("]" + rest)[1..] == rest;
    assert !("true" <= s) by { assert "true"[0] == 't'; }
  }

  lemma ValueReadsBack(v: Json, rest: string)
    requires ValueBytes(v) && (rest == [] || !IsDigit(rest[0], 10))
    ensures ReadValue(PrintValue(v) + rest) == Some((v, rest))
  {
    hide ReadString, Decimal, Escaped;
    match v
    case Text(t) =>
      StringReadsBack(t, rest);
    case Number(n) =>
      NumberValueReadsBack(n, rest);
    case True =>
      var s := "true" + rest;
      assert s[..4] == "true" && s[4..] == rest && s[0] == 't';
    case Singleton(t) =>
      SingletonReadsBack(t, rest);
  }

  // ----- Objects -----

  ghost predicate FieldsBytes(fs: seq<Field>) {
    forall i | 0 <= i < |fs| :: Bytes(fs[i].name) && ValueBytes(fs[i].value)
  }

  function PrintField(f: Field): string
    requires Bytes(f.name) && ValueBytes(f.value)
  {
    PrintString(f.name) + ":" + PrintValue(f.value)
  }

  function PrintFields(fs: seq<Field>): string
    requires |fs| >= 1 && FieldsBytes(fs)
  {
    if |fs| == 1 then PrintField(fs[0]) else PrintField(fs[0]) + "," + PrintFields(fs[1..])
  }

  function PrintObject(fs: seq<Field>): string
    requires |fs| >= 1 && FieldsBytes(fs)
  {
    "{" + PrintFields(fs) + "}"
  }

  function ReadField(s: string): (r: Option<(Field, string)>)
    ensures r.Some? ==> |r.value.1| < |s|
  {
    match ReadString(s)
    case None => None
    case Some((name, rest)) =>
      if rest == [] || rest[0] != ':' then None
      else match ReadValue(rest[1..])
        case None => None
        case Some((v, more)) => Some((Field(name, v), more))
  }

  /** Comma-separated fields up to the brace that ends the text. */
  function ReadFields(s: string): Option<seq<Field>>
    decreases |s|
  {
    match ReadField(s)
    case None => None
    case Some((f, rest)) =>
      if rest == "}" then Some([f])
      else if rest == [] || rest[0] != ',' then None
      else match ReadFields(rest[1..])
        case None => None
        case Some(fs) => Some([f] + fs)
  }

  function ReadObject(s: string): Option<seq<Field>> {
    if s == [] || s[0] != '{' then None else ReadFields(s[1..])
  }

  lemma FieldReadsBack(f: Field, rest: string)
    requires Bytes(f.name) && ValueBytes(f.value) && (rest == [] || !IsDigit(rest[0], 10))
    ensures ReadField(PrintField(f) + rest) == Some((f, rest))
  {
    var more := ":" + (PrintValue(f.value) + rest);
    assert PrintField(f) + rest == PrintString(f.name) + more;
    StringReadsBack(f.name, more);
    assert more[1..] == PrintValue(f.value) + rest;
    ValueReadsBack(f.value, rest);
  }

  lemma {:induction false} FieldsReadBack(fs: seq<Field>)
    requires |fs| >= 1 && FieldsBytes(fs)
    ensures ReadFields(PrintFields(fs) + "}") == Some(fs)
    decreases |fs|
  {
    hide ReadField, PrintField, ReadFields;
    if |fs| == 1 {
      FieldReadsBack(fs[0], "}");
      LastField(PrintField(fs[0]) + "}", fs[0]);
      assert fs == [fs[0]];
    } else {
      var more := PrintFields(fs[1..]) + "}";
      assert PrintFields(fs) + "}" == PrintField(fs[0]) + ("," + more);
      FieldReadsBack(fs[0], "," + more);
      FieldsReadBack(fs[1..]);
      FieldBeforeOthers(PrintField(fs[0]) + ("," + more), fs[0], more, fs[1..]);
      assert [fs[0]] + fs[1..] == fs;
    }
  }

  lemma LastField(s: string, f: Field)
    requires ReadField(s) == Some((f, "}"))
    ensures ReadFields(s) == Some([f])
  {
    hide ReadField;
  }

  lemma FieldBeforeOthers(s: string, f: Field, more: string, fs: seq<Field>)
    requires ReadField(s) == Some((f, "," + more)) && ReadFields(more) == Some(fs)
    ensures ReadFields(s) == Some([f] + fs)
  {
    hide ReadField;
    assert ("," + more)[1..] == more && ("," + more)[0] == ',' && "}"[0] == '}';
  }

  /** Reading undoes printing for every list of fields. */
  lemma ObjectReadsBack(fs: seq<Field>)
    requires |fs| >= 1 && FieldsBytes(fs)
    ensures ReadObject(PrintObject(fs)) == Some(fs)
  {
    hide PrintFields, ReadFields;
    FieldsReadBack(fs);
    assert PrintObject(fs)[1..] == PrintFields(fs) + "}";
  }

  lemma {:induction false} FieldsThenText(fs: seq<Field>, x: string)
    requires |fs| >= 1 && FieldsBytes(fs) && x != ""
    ensures ReadFields(PrintFields(fs) + ("}" + x)) == None
    decreases |fs|
  {
    hide ReadField, PrintField;
    var end := "}" + x;
    assert end[0] == '}' && |end| > 1;
    if |fs| == 1 {
      FieldReadsBack(fs[0], end);
    } else {
      var more := PrintFields(fs[1..]) + end;
      assert PrintFields(fs) + end == PrintField(fs[0]) + ("," + more);
      FieldReadsBack(fs[0], "," + more);
      FieldsThenText(fs[1..], x);
      assert ("," + more)[1..] == more && ("," + more)[0] == ',' && "}"[0] == '}';
    }
  }

  /** Nothing may follow an object. */
  lemma TrailingTextIsRefused(fs: seq<Field>, x: string)
    requires |fs| >= 1 && FieldsBytes(fs) && x != ""
    ensures ReadObject(PrintObject(fs) + x) == None
  {
    hide PrintFields, ReadFields;
    FieldsThenText(fs, x);
    assert (PrintObject(fs) + x)[1..] == PrintFields(fs) + ("}" + x);
  }

  /** The text of fields that follow another field. */
  function Tail(fs: seq<Field>): string
    requires FieldsBytes(fs)
  {
    if fs == [] then [] else "," + PrintField(fs[0]) + Tail(fs[1..])
  }

  lemma {:induction false} PrintFieldsIsTail(fs: seq<Field>)
    requires |fs| >= 1 && FieldsBytes(fs)
    ensures PrintFields(fs) == PrintField(fs[0]) + Tail(fs[1..])
    decreases |fs|
  {
    hide PrintField;
    if |fs| > 1 {
      PrintFieldsIsTail(fs[1..]);
      assert PrintField(fs[0]) + "," + (PrintField(fs[1]) + Tail(fs[1..][1..])) ==
             PrintField(fs[0]) + ("," + PrintField(fs[1]) + Tail(fs[1..][1..]));
    }
  }

  lemma {:induction false} TailConcat(a: seq<Field>, b: seq<Field>)
    requires FieldsBytes(a) && FieldsBytes(b)
    ensures Tail(a + b) == Tail(a) + Tail(b)
    decreases |a|
  {
    hide PrintField;
    if a == [] {
      assert a + b == b;
    } else {
      TailConcat(a[1..], b);
      assert (a + b)[1..] == a[1..] + b;
    }
  }
}
