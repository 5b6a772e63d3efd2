/** The urlencoded form body the CLI builds, against the parser of section 5.1 of the WHATWG URL Standard. */
module Forms {
  import opened Basics
  import opened Text

  // ---------------------------------------------------------------- encoding

  predicate Unreserved(b: byte) {
    || 'A' as int <= b <= 'Z' as int || 'a' as int <= b <= 'z' as int || '0' as int <= b <= '9' as int
    || b == '-' as int || b == '_' as int || b == '.' as int || b == '~' as int
  }

  function HexDigit(n: nat): char
    requires n < 16
  {
    if n < 10 then ('0' as int + n) as char else ('A' as int + n - 10) as char
  }

  function EncodeByte(b: byte): string {
    if Unreserved(b) then [b as char]
    else if b == ' ' as int then "+"
    else ['%', HexDigit(b / 16), HexDigit(b % 16)]
  }

  function Encode(bytes: Bytes): string {
    if bytes == [] then "" else EncodeByte(bytes[0]) + Encode(bytes[1..])
  }

  /** One turn of the `percent_encode` loop. */
  method PushEncoded(encoded: string, b: byte) returns (r: string)
    ensures r == encoded + EncodeByte(b)
  {
    if Unreserved(b) {
      r := encoded + [b as char];
    } else if b == ' ' as int {
      r := encoded + ['+'];
    } else {
      r := encoded + ['%', HexDigit(b / 16), HexDigit(b % 16)];
    }
  }

  /** `percent_encode` as the source runs it. */
  method PercentEncode(bytes: Bytes) returns (encoded: string)
    ensures encoded == Encode(bytes)
  {
    encoded := "";
    for i := 0 to |bytes|
      invariant encoded + Encode(bytes[i..]) == Encode(bytes)
    {
      assert bytes[i..][1..] == bytes[i + 1..];
      Regroup(encoded, EncodeByte(bytes[i]), Encode(bytes[i + 1..]));
      encoded := PushEncoded(encoded, bytes[i]);
    }
  }

  datatype Field = Field(key: Bytes, value: Bytes)

  function EncodeField(f: Field): string {
    Encode(f.key) + "=" + Encode(f.value)
  }

  function EncodeFields(fs: seq<Field>): (parts: seq<string>)
    ensures |parts| == |fs| && forall i :: 0 <= i < |fs| ==> parts[i] == EncodeField(fs[i])
  {
    seq(|fs|, i requires 0 <= i < |fs| => EncodeField(fs[i]))
  }

  function FormBody(fs: seq<Field>): string {
    Join(EncodeFields(fs), '&')
  }

  // ---------------------------------------------------------------- the standard parser

  function HexValue(c: char): Option<nat> {
    if '0' <= c <= '9' then Some(c as int - '0' as int)
    else if 'A' <= c <= 'F' then Some(c as int - 'A' as int + 10)
    else if 'a' <= c <= 'f' then Some(c as int - 'a' as int + 10)
    else None
  }

  /** "+" is a space, "%XX" a byte, and anything else (even a stray "%") stands for itself. */
  function Decode(s: string): Bytes {
    if s == "" then []
    else if s[0] == '+' then [' ' as int] + Decode(s[1..])
    else if s[0] == '%' && |s| >= 3 && HexValue(s[1]).Some? && HexValue(s[2]).Some? then
      [(HexValue(s[1]).value * 16 + HexValue(s[2]).value) % 256] + Decode(s[3..])
    else [s[0] as int % 256] + Decode(s[1..])
  }

  /** Split at the first "="; without one the whole part is the name. */
  function ParseField(part: string): Field {
    var i := Find(part, '=');
    if i == -1 then Field(Decode(part), []) else Field(Decode(part[..i]), Decode(part[i + 1..]))
  }

  /** Empty parts are skipped. */
  function ParseParts(parts: seq<string>): seq<Field> {
    if parts == [] then []
    else (if parts[0] == "" then [] else [ParseField(parts[0])]) + ParseParts(parts[1..])
  }

  function ParseForm(body: string): seq<Field> {
    ParseParts(Split(body, '&'))
  }

  // ---------------------------------------------------------------- round trip

  predicate Safe(c: char) {
    c != '&' && c != '='
  }

  /** Letters, digits and "-", "_", ".", "~" stand for themselves; nothing else does. */
  lemma LiteralIff(b: byte)
    ensures EncodeByte(b) == [b as char]
       <==> var c := b as char; 'A' <= c <= 'Z' || 'a' <= c <= 'z' || '0' <= c <= '9' || c in {'-', '_', '.', '~'}
    ensures EncodeByte(b) == "+" <==> b == 32
    ensures |EncodeByte(b)| == 1 || |EncodeByte(b)| == 3
  {
  }

  lemma EncodeByteIsSafe(b: byte)
    ensures forall i :: 0 <= i < |EncodeByte(b)| ==> Safe(EncodeByte(b)[i])
  {
  }

  lemma {:induction false} EncodeIsSafe(bytes: Bytes)
    ensures forall i :: 0 <= i < |Encode(bytes)| ==> Safe(Encode(bytes)[i])
  {
    if bytes != [] {
      EncodeByteIsSafe(bytes[0]);
      EncodeIsSafe(bytes[1..]);
    }
  }

  lemma DecodeOneByte(b: byte, rest: string)
    ensures Decode(EncodeByte(b) + rest) == [b] + Decode(rest)
  {
    var s := EncodeByte(b) + rest;
    if Unreserved(b) || b == ' ' as int {
      assert s[1..] == rest;
    } else {
      assert s[3..] == rest;
    }
  }

  /** Decoding undoes `percent_encode` on every byte string. */
  lemma {:induction false} DecodeUndoesEncode(bytes: Bytes)
    ensures Decode(Encode(bytes)) == bytes
  {
    if bytes != [] {
      DecodeOneByte(bytes[0], Encode(bytes[1..]));
      DecodeUndoesEncode(bytes[1..]);
    }
  }

  lemma FieldRoundTrip(f: Field)
    ensures ParseField(EncodeField(f)) == f && EncodeField(f) != "" && '&' !in EncodeField(f)
  {
    var k, v := Encode(f.key), Encode(f.value);
    EncodeIsSafe(f.key);
    EncodeIsSafe(f.value);
    FindBehind(k, '=', v);
    DecodeUndoesEncode(f.key);
    DecodeUndoesEncode(f.value);
  }

  lemma {:induction false} PartsRoundTrip(fs: seq<Field>)
    ensures ParseParts(EncodeFields(fs)) == fs
  {
    if fs != [] {
      FieldRoundTrip(fs[0]);
      assert EncodeFields(fs)[1..] == EncodeFields(fs[1..]);
      PartsRoundTrip(fs[1..]);
    }
  }

  /** Parsing the body gives back the list of fields, for every list. */
  lemma FormRoundTrip(fs: seq<Field>)
    ensures ParseForm(FormBody(fs)) == fs
  {
    if fs == [] {
      assert Split("", '&') == [""];
      assert ParseParts([""]) == [] + ParseParts([]);
    } else {
      forall i | 0 <= i < |fs|
        ensures '&' !in EncodeFields(fs)[i]
      {
        FieldRoundTrip(fs[i]);
      }
      SplitUndoesJoin(EncodeFields(fs), '&');
      PartsRoundTrip(fs);
    }
  }

  // ---------------------------------------------------------------- from the command line

  function ToBytes(s: string): (b: Bytes)
    ensures |b| == |s| && forall i :: 0 <= i < |s| && s[i] as int < 256 ==> b[i] == s[i] as int
  {
    seq(|s|, i requires 0 <= i < |s| => s[i] as int % 256)
  }

  /** `parse_form`: NAME=VALUE, split at the first "=". */
  function ParseArgument(arg: string): Result<Field, string> {
    var i := Find(arg, '=');
    if i == -1 then Err("form field must be in NAME=VALUE format")
    else Ok(Field(ToBytes(arg[..i]), ToBytes(arg[i + 1..])))
  }

  lemma ArgumentOf(k: string, v: string)
    requires '=' !in k
    ensures ParseArgument(k + "=" + v) == Ok(Field(ToBytes(k), ToBytes(v)))
  {
    assert k + "=" + v == k + ['='] + v;
    FindBehind(k, '=', v);
  }

  /** An argument is accepted exactly when it is a text, "=", and a text, the first one without "=". */
  lemma ArgumentIff(arg: string, f: Field)
    ensures ParseArgument(arg) == Ok(f)
       <==> exists k, v :: arg == k + "=" + v && '=' !in k && f == Field(ToBytes(k), ToBytes(v))
  {
    if ParseArgument(arg) == Ok(f) {
      var i := Find(arg, '=');
      var k, v := arg[..i], arg[i + 1..];
      assert arg == k + "=" + v && '=' !in k;
    }
    if k, v :| arg == k + "=" + v && '=' !in k && f == Field(ToBytes(k), ToBytes(v)) {
      ArgumentOf(k, v);
    }
  }

  /** The loop that builds the body from the `--form` arguments. */
  method BuildFormBody(args: seq<string>) returns (r: Result<string, string>)
    ensures r.Ok? <==> forall i :: 0 <= i < |args| ==> '=' in args[i]
    ensures r.Ok? ==> |ParseForm(r.value)| == |args|
    ensures r.Ok? ==> forall i :: 0 <= i < |args| ==> ParseArgument(args[i]) == Ok(ParseForm(r.value)[i])
  {
    var params: seq<string> := [];
    ghost var fields: seq<Field> := [];
    for n := 0 to |args|
      invariant |fields| == n && params == EncodeFields(fields)
      invariant forall i :: 0 <= i < n ==> '=' in args[i] && ParseArgument(args[i]) == Ok(fields[i])
    {
      var field := ParseArgument(args[n]);
      if field.Err? {
        return Err(field.error);
      }
      var key := PercentEncode(field.value.key);
      var value := PercentEncode(field.value.value);
      params := params + [key + "=" + value];
      fields := fields + [field.value];
    }
    FormRoundTrip(fields);
    return Ok(Join(params, '&'));
  }
}
